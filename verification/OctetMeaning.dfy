/**
  What the text of a string element stands for, told without the receivers' loops: digits
  of either case and blanks between them, and references by their code points in UTF-8.
 */
module OctetMeaning {
  import opened Octets
  import opened Decimal
  import opened BitStream
  import opened OctetText

  const BLANKS: seq<octet> := [0x09, 0x0a, 0x0c, 0x0d, 0x20]

  /** A text without its blanks. */
  function Visible(t: text): (d: text)
    ensures |d| <= |t|
  {
    if t == [] then [] else (if t[0] in BLANKS then [] else [t[0]]) + Visible(t[1..])
  }

  predicate IsNibble(c: octet) {
    exists v :: 0 <= v < 16 && Nibble(c, v)
  }

  predicate AllNibbles(d: text) {
    forall i :: 0 <= i < |d| ==> IsNibble(d[i])
  }

  /** Two digits for each octet, of either case. */
  predicate Spells(d: text, s: seq<octet>) {
    && |d| == 2 * |s|
    && forall k :: 0 <= k < |s| ==> Nibble(d[2 * k], s[k] / 16) && Nibble(d[2 * k + 1], s[k] % 16)
  }

  lemma BlankIs(c: octet)
    ensures c in BLANKS <==> IsBlank(c)
    ensures c in BLANKS ==> DigitValue(c) == None
  {
  }

  lemma NibbleExists(c: octet)
    ensures IsNibble(c) <==> DigitValue(c).Some?
  {
    if DigitValue(c).Some? { NibbleIs(c, DigitValue(c).value); }
    if v: nat :| 0 <= v < 16 && Nibble(c, v) { NibbleIs(c, v); }
  }

  lemma VisibleStep(t: text, i: nat)
    requires i < |t|
    ensures Visible(t[i..]) == if t[i] in BLANKS then Visible(t[i + 1..]) else [t[i]] + Visible(t[i + 1..])
  {
    assert t[i..][1..] == t[i + 1..];
    assert [] + Visible(t[i + 1..]) == Visible(t[i + 1..]);
  }

  lemma {:induction false} VisibleConcat(a: text, b: text)
    ensures Visible(a + b) == Visible(a) + Visible(b)
  {
    if a == [] {
      assert a + b == b;
    } else {
      VisibleConcat(a[1..], b);
      assert (a + b)[1..] == a[1..] + b;
      VisibleStep(a, 0);
      VisibleStep(a + b, 0);
      assert a[0..] == a && (a + b)[0..] == a + b;
      hide Visible;
      Associative([a[0]], Visible(a[1..]), Visible(b));
    }
  }

  /** Where the first visible character stands, and that it is what the group starts with. */
  lemma {:induction false} FirstVisible(t: text, i: nat, half: Option<nat>) returns (j: nat)
    requires i <= |t| && (half.Some? ==> half.value < 16) && Visible(t[i..]) != []
    ensures i <= j < |t| && t[j] !in BLANKS && Visible(t[i..]) == [t[j]] + Visible(t[j + 1..])
    ensures GroupFrom(t, i, half) == GroupFrom(t, j, half)
    decreases |t| - i
  {
    j := i;
    if i < |t| {
      VisibleStep(t, i);
      BlankIs(t[i]);
      if t[i] in BLANKS { j := FirstVisible(t, i + 1, half); }
    }
  }

  lemma {:induction false} NoneVisible(t: text, i: nat, half: Option<nat>)
    requires i <= |t| && (half.Some? ==> half.value < 16) && Visible(t[i..]) == []
    ensures GroupFrom(t, i, half) == if half == None then Blank else Half(half.value)
    decreases |t| - i
  {
    if i < |t| {
      VisibleStep(t, i);
      BlankIs(t[i]);
      NoneVisible(t, i + 1, half);
    }
  }

  /** The group at the front of a text, told by what is visible of it. */
  ghost predicate GroupTold(t: text, g: Group) {
    var d := Visible(t);
    match g
    case Blank => d == []
    case Half(v) => |d| == 1 && Nibble(d[0], v)
    case Pair(o, n) =>
      && 0 < n <= |t| && |d| >= 2 && Nibble(d[0], o / 16) && Nibble(d[1], o % 16)
      && t[n - 1] !in BLANKS && d[2..] == Visible(t[n..])
    case Bad => !AllNibbles(d)
  }

  lemma GroupIs(t: text)
    ensures GroupTold(t, GroupFrom(t, 0, None))
  {
    hide GroupFrom, Visible;
    assert t[0..] == t;
    if Visible(t) == [] {
      NoneVisible(t, 0, None);
    } else {
      var j := FirstVisible(t, 0, None);
      NibbleExists(t[j]);
      GroupStarts(t, j);
      if DigitValue(t[j]).Some? {
        var v := DigitValue(t[j]).value;
        NibbleIs(t[j], v);
        SecondIs(t, j + 1, v);
        var d, rest := Visible(t), Visible(t[j + 1..]);
        assert d[1..] == rest;
        if rest != [] { assert d[1] == rest[0] && d[2..] == rest[1..]; }
      } else {
        assert !IsNibble(Visible(t)[0]);
      }
    }
  }

  lemma GroupStarts(t: text, j: nat)
    requires j < |t| && t[j] !in BLANKS
    ensures GroupFrom(t, j, None)
         == if DigitValue(t[j]) == None then Bad else GroupFrom(t, j + 1, DigitValue(t[j]))
    ensures forall v: nat :: v < 16 ==>
              GroupFrom(t, j, Some(v))
              == if DigitValue(t[j]) == None then Bad else Pair(16 * v + DigitValue(t[j]).value, j + 1)
  {
    BlankIs(t[j]);
  }

  lemma SecondIs(t: text, i: nat, v: nat)
    requires i <= |t| && v < 16
    ensures var d := Visible(t[i..]);
            match GroupFrom(t, i, Some(v))
            case Blank => false
            case Half(w) => d == [] && w == v
            case Pair(o, n) =>
              && 0 < n <= |t| && d != [] && o / 16 == v && Nibble(d[0], o % 16)
              && t[n - 1] !in BLANKS && d[1..] == Visible(t[n..])
            case Bad => d != [] && !IsNibble(d[0])
  {
    hide GroupFrom, Visible;
    if Visible(t[i..]) == [] {
      NoneVisible(t, i, Some(v));
    } else {
      var j := FirstVisible(t, i, Some(v));
      NibbleExists(t[j]);
      GroupStarts(t, j);
      if DigitValue(t[j]).Some? { NibbleIs(t[j], DigitValue(t[j]).value); }
    }
  }

  /** Digits that wait for their other half. */
  predicate Odd(d: text) {
    |d| % 2 == 1
  }

  /** What a text of hexadecimal digits is read as, told by its visible characters. */
  ghost predicate HexTold(t: text, more: bool, r: Option<Taken>) {
    var d := Visible(t);
    match r
    case None => !AllNibbles(d)
    case Some(k) =>
      && AllNibbles(d)
      && if !Odd(d) then k.length == |t| && Spells(d, k.octets)
         else if more then k.length == |t| && Spells(d + [0x30], k.octets)
         else
           && k.length <= |t| && Visible(t[k.length..]) == d[|d| - 1..] && Spells(d[..|d| - 1], k.octets)
           && (k.length == 0 || t[k.length - 1] !in BLANKS)
  }

  lemma {:induction false} HexMeaning(t: text, more: bool)
    ensures HexTold(t, more, Hex(t, more))
    decreases |t|
  {
    hide Hex, GroupFrom, Visible, Nibble;
    GroupIs(t);
    HexCases(t, more);
    match GroupFrom(t, 0, None)
    case Bad =>
    case Blank =>
    case Half(v) =>
      NibbleIs(0x30, 0);
      assert t[0..] == t && IsNibble(Visible(t)[0]);
      assert 16 * v / 16 == v && 16 * v % 16 == 0;
    case Pair(o, n) =>
      HexMeaning(t[n..], more);
      PairTold(t, o, n, more, Hex(t[n..], more));
  }

  /** Text that spells octets, in either case and with any blanks, is read as those octets and no others. */
  lemma HexRead(t: text, s: seq<octet>, more: bool)
    ensures Spells(Visible(t), s) ==> Hex(t, more) == Some(Taken(|t|, s))
    ensures Hex(t, more) == Some(Taken(|t|, s)) && !Odd(Visible(t)) ==> Spells(Visible(t), s)
  {
    hide Visible, Nibble, Hex;
    HexMeaning(t, more);
    var d := Visible(t);
    if Spells(d, s) {
      forall i | 0 <= i < |d| ensures IsNibble(d[i]) {
        assert d[i] == d[2 * (i / 2)] || d[i] == d[2 * (i / 2) + 1];
      }
      SpelledOnce(d, s, Hex(t, more).value.octets);
    }
  }

  lemma SpelledOnce(d: text, s: seq<octet>, r: seq<octet>)
    requires Spells(d, s) && Spells(d, r)
    ensures s == r
  {
    forall k | 0 <= k < |s| ensures s[k] == r[k] {
      NibbleIs(d[2 * k], s[k] / 16);
      NibbleIs(d[2 * k], r[k] / 16);
      NibbleIs(d[2 * k + 1], s[k] % 16);
      NibbleIs(d[2 * k + 1], r[k] % 16);
    }
  }

  lemma PairTold(t: text, o: octet, n: nat, more: bool, rest: Option<Taken>)
    requires 0 < n <= |t| && GroupTold(t, Pair(o, n)) && HexTold(t[n..], more, rest)
    ensures HexTold(t, more, Onto(Taken(n, [o]), rest))
  {
    hide Visible, Spells, AllNibbles, Odd;
    var d, e := Visible(t), Visible(t[n..]);
    NibblesCons(d);
    OddCons(d);
    if rest.Some? {
      var k := rest.value;
      DropTwice(t, n, k.length);
      if !Odd(d) {
        SpellsCons(d, o, k.octets);
      } else if more {
        assert (d + [0x30])[2..] == e + [0x30];
        SpellsCons(d + [0x30], o, k.octets);
      } else {
        LastLeft(d, e);
        SpellsCons(d[..|d| - 1], o, k.octets);
      }
    }
  }

  lemma OddCons(d: text)
    requires |d| >= 2
    ensures (Odd(d[2..]) <==> Odd(d)) && (Odd(d) ==> |d| > 2)
  {
  }

  lemma DropTwice(t: text, n: nat, k: nat)
    requires n <= |t| && k <= |t| - n
    ensures t[n + k..] == t[n..][k..] && (k > 0 ==> t[n + k - 1] == t[n..][k - 1])
  {
  }

  lemma LastLeft(d: text, e: text)
    requires |d| > 2 && d[2..] == e
    ensures d[..|d| - 1][2..] == e[..|e| - 1] && d[|d| - 1..] == e[|e| - 1..]
  {
  }

  lemma NibblesCons(d: text)
    requires |d| >= 2 && (exists v :: 0 <= v < 16 && Nibble(d[0], v)) && exists v :: 0 <= v < 16 && Nibble(d[1], v)
    ensures AllNibbles(d) <==> AllNibbles(d[2..])
  {
    hide Nibble;
    assert IsNibble(d[0]) && IsNibble(d[1]);
    hide IsNibble;
    if AllNibbles(d[2..]) {
      forall i | 0 <= i < |d| ensures IsNibble(d[i]) {
        if i >= 2 { assert d[2..][i - 2] == d[i]; }
      }
    }
  }

  lemma SpellsCons(d: text, o: octet, s: seq<octet>)
    requires |d| >= 2 && Nibble(d[0], o / 16) && Nibble(d[1], o % 16) && Spells(d[2..], s)
    ensures Spells(d, [o] + s)
  {
    hide Nibble;
    var r := [o] + s;
    forall k | 0 <= k < |r| ensures Nibble(d[2 * k], r[k] / 16) && Nibble(d[2 * k + 1], r[k] % 16) {
      if k > 0 { assert d[2..][2 * (k - 1)] == d[2 * k] && d[2..][2 * (k - 1) + 1] == d[2 * k + 1]; }
    }
  }

  // ----- binary ----------------------------------------------------------------------------

  /** Binary text is read exactly when its visible characters are zeros and ones, and as those. */
  lemma {:induction false} BinaryMeaning(t: text)
    ensures var d := Visible(t);
            match Digits(t)
            case Some(b) => |b| == |d| && forall i :: 0 <= i < |d| ==> d[i] == "01"[b[i]] as int
            case None => exists i :: 0 <= i < |d| && d[i] != '0' as int && d[i] != '1' as int
  {
    hide Visible;
    assert t[0..] == t;
    if t == [] {
      VisibleNothing();
    } else {
      VisibleStep(t, 0);
      BlankIs(t[0]);
      BinaryMeaning(t[1..]);
      var d, e := Visible(t), Visible(t[1..]);
      if t[0] !in BLANKS {
        assert d[0] == t[0] && d[1..] == e;
        if Digits(t[1..]) == None {
          var i :| 0 <= i < |e| && e[i] != '0' as int && e[i] != '1' as int;
          assert d[i + 1] == e[i];
        }
      }
    }
  }

  lemma VisibleNothing()
    ensures Visible([]) == []
  {
  }

  // ----- references --------------------------------------------------------------------------

  /** The number digits stand for in a base. */
  function Radix(d: text, base: nat): (v: nat) {
    if d == [] then 0 else base * Radix(d[..|d| - 1], base) + Digit(d[|d| - 1])
  }

  function Digit(c: octet): nat {
    if DigitValue(c) == None then 0 else DigitValue(c).value
  }

  lemma RadixGrows(d: text, base: nat)
    requires d != [] && base > 0
    ensures Radix(d[..|d| - 1], base) <= Radix(d, base)
  {
    hide Digit;
    AtLeast(base, Radix(d[..|d| - 1], base));
  }

  /** More digits never make a smaller number. */
  lemma {:induction false} RadixPrefix(d: text, base: nat, j: nat)
    requires j <= |d| && base > 0
    ensures Radix(d[..j], base) <= Radix(d, base)
  {
    hide Radix;
    if j < |d| {
      RadixGrows(d, base);
      RadixPrefix(d[..|d| - 1], base, j);
      assert d[..|d| - 1][..j] == d[..j];
    } else {
      assert d[..j] == d;
    }
  }

  lemma AtLeast(base: nat, v: nat)
    requires base > 0
    ensures base * v >= v
  {
  }

  lemma RadixSnoc(t: text, base: nat, k: nat, i: nat)
    requires k <= i < |t|
    ensures Radix(t[k..i + 1], base) == base * Radix(t[k..i], base) + Digit(t[i])
    ensures AllNibbles(t[k..i]) && IsNibble(t[i]) ==> AllNibbles(t[k..i + 1])
  {
    hide IsNibble, Digit;
    var d := t[k..i + 1];
    assert d == t[k..i] + [t[i]];
    assert d[..|d| - 1] == t[k..i] && d[|d| - 1] == t[i];
  }

  /** What a run of digits from k on comes to: a number at its semicolon, none, or nothing yet. */
  ghost predicate NumberTold(base: nat, t: text, k: nat, n: Number)
    requires k <= |t|
  {
    match n
    case Value(v, end) =>
      && k < end <= |t| && t[end - 1] == SEMICOLON
      && AllNibbles(t[k..end - 1]) && v == Radix(t[k..end - 1], base) <= 0x10ffff
    case Unfinished => AllNibbles(t[k..]) && Radix(t[k..], base) <= 0x10ffff
    case Invalid => exists j :: Spoils(base, t, k, j)
  }

  /** Where a run of digits stops being a number: no digit and no semicolon, or the digit that leaves Unicode. */
  ghost predicate Spoils(base: nat, t: text, k: nat, j: nat)
    requires k <= |t|
  {
    && k <= j < |t| && AllNibbles(t[k..j])
    && if IsNibble(t[j]) then AllNibbles(t[k..j + 1]) && Radix(t[k..j + 1], base) > 0x10ffff
       else t[j] != SEMICOLON
  }

  lemma {:induction false} NumberIs(base: nat, t: text, k: nat, i: nat, val: nat)
    requires k <= i <= |t| && AllNibbles(t[k..i]) && val == Radix(t[k..i], base) <= 0x10ffff
    ensures NumberTold(base, t, k, NumberFrom(base, t, i, val))
    decreases |t| - i
  {
    hide Radix, IsNibble, AllNibbles;
    if i == |t| {
      assert t[k..i] == t[k..];
    } else {
      NibbleExists(t[i]);
      NibbleExists(SEMICOLON);
      if IsNibble(t[i]) {
        RadixSnoc(t, base, k, i);
        if Radix(t[k..i + 1], base) <= 0x10ffff {
          NumberIs(base, t, k, i + 1, Radix(t[k..i + 1], base));
        } else {
          assert Spoils(base, t, k, i);
        }
      } else if t[i] != SEMICOLON {
        assert Spoils(base, t, k, i);
      }
    }
  }

  predicate Starts(t: text, s: string) {
    |s| <= |t| && forall i :: 0 <= i < |s| ==> t[i] == s[i] as int
  }

  /** Where the digits of a numeric reference start. */
  function DigitsAt(hex: bool): (k: nat)
    ensures k == 2 || k == 3
  {
    if hex then 3 else 2
  }

  /** A numeric reference of n characters in front of a text. */
  ghost predicate NumericAt(t: text, hex: bool, n: nat) {
    && Starts(t, if hex then "&#x" else "&#")
    && DigitsAt(hex) < n <= |t| && t[n - 1] == ';' as int && AllNibbles(t[DigitsAt(hex)..n - 1])
  }

  /** Its code point; letters count as digits in base 10 too. */
  ghost function NumericValue(t: text, hex: bool, n: nat): nat
    requires NumericAt(t, hex, n)
  {
    Radix(t[DigitsAt(hex)..n - 1], if hex then 16 else 10)
  }

  predicate Continues(c: octet) {
    0x80 <= c < 0xc0
  }

  function Above(c: octet, base: nat): nat
    requires c >= base
  {
    c - base
  }

  /** The code point a UTF-8 sequence stands for (section 3 of RFC 3629). */
  function CodePoint(s: seq<octet>): Option<nat> {
    if |s| == 1 && s[0] < 0x80 then Some(s[0])
    else if |s| == 2 && 0xc0 <= s[0] < 0xe0 && Continues(s[1]) then
      Some(Above(s[0], 0xc0) * 64 + Above(s[1], 0x80))
    else if |s| == 3 && 0xe0 <= s[0] < 0xf0 && Continues(s[1]) && Continues(s[2]) then
      Some(Above(s[0], 0xe0) * 4096 + Above(s[1], 0x80) * 64 + Above(s[2], 0x80))
    else if |s| == 4 && 0xf0 <= s[0] < 0xf8 && Continues(s[1]) && Continues(s[2]) && Continues(s[3]) then
      Some(Above(s[0], 0xf0) * 262144 + Above(s[1], 0x80) * 4096 + Above(s[2], 0x80) * 64 + Above(s[3], 0x80))
    else None
  }

  lemma CodePointBound(s: seq<octet>)
    ensures CodePoint(s).Some? ==>
              && 1 <= |s| <= 4
              && (|s| == 1 ==> CodePoint(s).value < 0x80)
              && (|s| == 2 ==> CodePoint(s).value < 0x800)
              && (|s| == 3 ==> CodePoint(s).value < 0x10000)
  {
  }

  lemma Sixths(v: nat)
    ensures v == v / 64 * 64 + v % 64
    ensures v / 64 == v / 4096 * 64 + v / 64 % 64
    ensures v / 4096 == v / 262144 * 64 + v / 4096 % 64
  {
    assert v / 4096 == v / 64 / 64 && v / 262144 == v / 4096 / 64;
  }

  /** What a reference stores reads back as its code point, and nothing shorter does. */
  lemma Utf8Reads(v: nat, s: seq<octet>)
    requires 0 < v <= 0x10ffff
    ensures CodePoint(Utf8(v)) == Some(v)
    ensures CodePoint(s) == Some(v) ==> |s| >= |Utf8(v)|
  {
    CodePointBound(s);
    hide CodePoint;
    Utf8Read(v);
  }

  lemma Utf8Read(v: nat)
    requires 0 < v <= 0x10ffff
    ensures CodePoint(Utf8(v)) == Some(v)
  {
    Sixths(v);
  }

  // ----- pieces ------------------------------------------------------------------------------------

  /** A text that may yet become a reference. */
  ghost predicate Pending(t: text) {
    t != [] && t[0] == '&' as int &&
    if |t| == 1 then true
    else if t[1] != '#' as int then forall i :: 0 <= i < 5 && i < |t| ==> t[i] != ';' as int
    else
      var k := if Starts(t, "&#x") then 3 else 2;
      |t| == 2 || (AllNibbles(t[k..]) && Radix(t[k..], if k == 3 then 16 else 10) <= 0x10ffff)
  }

  /** A reference of n characters in front of a text, and the octets it stands for. */
  ghost predicate Refers(t: text, n: nat, o: seq<octet>) {
    || (Starts(t, "&amp;") && n == 5 && o == ['&' as int])
    || (Starts(t, "&lt;") && n == 4 && o == ['<' as int])
    || (Starts(t, "&gt;") && n == 4 && o == ['>' as int])
    || exists hex ::
         NumericAt(t, hex, n) && 0 < NumericValue(t, hex, n) <= 0x10ffff && o == Utf8(NumericValue(t, hex, n))
  }

  /** A numeric reference to code point zero. */
  ghost predicate RefersToZero(t: text) {
    exists hex, n: nat :: NumericAt(t, hex, n) && NumericValue(t, hex, n) == 0
  }

  lemma {:induction false} SemicolonIs(t: text, i: nat, n: nat)
    requires i <= n <= |t|
    ensures match Semicolon(t, i, n)
            case None => forall k :: i <= k < n ==> t[k] != SEMICOLON
            case Some(sc) => i <= sc < n && t[sc] == SEMICOLON && forall k :: i <= k < sc ==> t[k] != SEMICOLON
    decreases n - i
  {
    if i < n && t[i] != SEMICOLON {
      SemicolonIs(t, i + 1, n);
    }
  }

  lemma NibbleIn(t: text, k: nat, j: nat, i: nat)
    requires k <= i < j <= |t| && AllNibbles(t[k..j])
    ensures IsNibble(t[i])
  {
    assert t[k..j][i - k] == t[i];
  }

  lemma NibbleAfter(t: text, k: nat, i: nat)
    requires k <= i < |t| && AllNibbles(t[k..])
    ensures IsNibble(t[i])
  {
    assert t[k..][i - k] == t[i];
  }

  /** Digits that end in a semicolon are only spoilt by being too many. */
  lemma SpoiltBefore(t: text, base: nat, k: nat, n: nat, j: nat)
    requires k < n <= |t| && t[n - 1] == SEMICOLON && AllNibbles(t[k..n - 1])
    requires base > 0 && Spoils(base, t, k, j)
    ensures Radix(t[k..n - 1], base) > 0x10ffff
  {
    hide Radix, IsNibble, AllNibbles;
    NibbleExists(SEMICOLON);
    if j > n - 1 {
      NibbleIn(t, k, j, n - 1);
    } else if j < n - 1 {
      NibbleIn(t, k, n - 1, j);
      RadixPrefix(t[k..n - 1], base, j + 1 - k);
      assert t[k..n - 1][..j + 1 - k] == t[k..j + 1];
    }
  }

  /** Digits that go on to the end of the text are only spoilt by being too many. */
  lemma SpoiltAll(t: text, base: nat, k: nat, j: nat)
    requires k <= |t| && AllNibbles(t[k..]) && base > 0 && Spoils(base, t, k, j)
    ensures Radix(t[k..], base) > 0x10ffff
  {
    hide Radix, IsNibble, AllNibbles;
    NibbleAfter(t, k, j);
    RadixPrefix(t[k..], base, j + 1 - k);
    assert t[k..][..j + 1 - k] == t[k..j + 1];
  }

  /** A numeric reference within Unicode is read up to its semicolon. */
  lemma NumericFrom(t: text, hex: bool, n: nat)
    requires NumericAt(t, hex, n) && NumericValue(t, hex, n) <= 0x10ffff
    ensures NumberFrom(if hex then 16 else 10, t, DigitsAt(hex), 0) == Value(NumericValue(t, hex, n), n)
  {
    hide Radix, IsNibble, AllNibbles, NumberFrom;
    var base, k := if hex then 16 else 10, DigitsAt(hex);
    NumberStarts(base, t, k);
    NibbleExists(SEMICOLON);
    match NumberFrom(base, t, k, 0)
    case Value(v, end) =>
      if end < n { NibbleIn(t, k, n - 1, end - 1); }
      if n < end { NibbleIn(t, k, end - 1, n - 1); }
    case Unfinished => NibbleAfter(t, k, n - 1);
    case Invalid =>
      var j :| Spoils(base, t, k, j);
      SpoiltBefore(t, base, k, n, j);
  }

  lemma NumberStarts(base: nat, t: text, k: nat)
    requires k <= |t|
    ensures NumberTold(base, t, k, NumberFrom(base, t, k, 0))
  {
    assert t[k..k] == [];
    NumberIs(base, t, k, k, 0);
  }

  /** The digits of a number that is still to come are read as such. */
  lemma PendingFrom(t: text, base: nat, k: nat)
    requires k <= |t| && base > 0 && AllNibbles(t[k..]) && Radix(t[k..], base) <= 0x10ffff
    ensures NumberFrom(base, t, k, 0) == Unfinished
  {
    hide Radix, IsNibble, AllNibbles, NumberFrom, Spoils;
    NumberStarts(base, t, k);
    NibbleExists(SEMICOLON);
    var n := NumberFrom(base, t, k, 0);
    if n.Value? {
      NibbleAfter(t, k, n.length - 1);
    } else if n.Invalid? {
      var j :| Spoils(base, t, k, j);
      SpoiltAll(t, base, k, j);
    }
  }

  /** The base is told by an x: it is no digit. */
  lemma OneBase(t: text, hex: bool, n: nat)
    requires NumericAt(t, hex, n)
    ensures hex <==> Starts(t, "&#x")
  {
    if !hex && Starts(t, "&#x") {
      NibbleExists(t[2]);
      NibbleIn(t, 2, n - 1, 2);
    }
  }

  /** Every reference, in front of any text, is read as what it stands for. */
  lemma ReferenceRead(t: text, n: nat, o: seq<octet>)
    requires Refers(t, n, o)
    ensures PieceOf(t) == Stored(o, n)
  {
    hide NumberFrom, Radix, AllNibbles, Utf8;
    if Starts(t, "&amp;") {
      assert Semicolon(t, 0, 5) == Semicolon(t, 2, 5) == Some(4);
      assert t[1..4] == [0x61, 0x6d, 0x70];
    } else if Starts(t, "&lt;") || Starts(t, "&gt;") {
      var m := if |t| > 5 then 5 else |t|;
      assert Semicolon(t, 0, m) == Semicolon(t, 2, m) == Some(3);
      assert t[1..3] == [t[1], t[2]];
    } else {
      var hex :| NumericAt(t, hex, n) && 0 < NumericValue(t, hex, n) <= 0x10ffff
        && o == Utf8(NumericValue(t, hex, n));
      OneBase(t, hex, n);
      NumericFrom(t, hex, n);
    }
  }

  lemma ZeroRead(t: text)
    requires RefersToZero(t)
    ensures PieceOf(t) == ZeroReference
  {
    hide NumberFrom, Radix, AllNibbles, Utf8;
    var hex, n: nat :| NumericAt(t, hex, n) && NumericValue(t, hex, n) == 0;
    OneBase(t, hex, n);
    NumericFrom(t, hex, n);
  }

  lemma PendingRead(t: text)
    requires Pending(t)
    ensures PieceOf(t) == Incomplete
  {
    hide NumberFrom, Radix, AllNibbles, Utf8;
    if |t| > 1 && t[1] != HASH {
      SemicolonIs(t, 0, if |t| > 5 then 5 else |t|);
    } else if |t| > 2 {
      PendingFrom(t, if Starts(t, "&#x") then 16 else 10, DigitsAt(Starts(t, "&#x")));
    }
  }

  /** What stands at the front of a text: a reference, one that may still come, or an octet for itself. */
  lemma PieceMeaning(t: text)
    requires t != []
    ensures PieceOf(t) == Incomplete <==> Pending(t)
    ensures PieceOf(t) == ZeroReference <==> RefersToZero(t)
    ensures forall n, o :: Refers(t, n, o) ==> PieceOf(t) == Stored(o, n)
    ensures !Pending(t) && !RefersToZero(t) && (forall n, o :: !Refers(t, n, o)) ==> PieceOf(t) == Stored([t[0]], 1)
  {
    hide PieceOf, Refers, RefersToZero, Pending;
    forall n, o | Refers(t, n, o) ensures PieceOf(t) == Stored(o, n) {
      ReferenceRead(t, n, o);
    }
    if Pending(t) { PendingRead(t); }
    if RefersToZero(t) { ZeroRead(t); }
    PieceFound(t);
  }

  lemma PieceFound(t: text)
    requires t != []
    ensures match PieceOf(t)
            case Incomplete => Pending(t)
            case ZeroReference => RefersToZero(t)
            case Stored(o, n) => Refers(t, n, o) || (o == [t[0]] && n == 1)
  {
    if t[0] == AMPERSAND && |t| > 1 {
      if t[1] == HASH {
        if |t| > 2 { NumericFound(t, Starts(t, "&#x")); }
      } else {
        NamedFound(t);
      }
    }
  }

  lemma NamedFound(t: text)
    requires |t| > 1 && t[0] == AMPERSAND && t[1] != HASH
    ensures match PieceOf(t)
            case Incomplete => Pending(t)
            case ZeroReference => false
            case Stored(o, n) => Refers(t, n, o) || (o == [t[0]] && n == 1)
  {
    var m := if |t| > 5 then 5 else |t|;
    SemicolonIs(t, 0, m);
    hide Semicolon;
    if |t| >= 4 { assert t[1..3] == [t[1], t[2]] && t[1..4] == [t[1], t[2], t[3]]; }
  }

  lemma NumericFound(t: text, hex: bool)
    requires |t| > 2 && Starts(t, "&#") && (hex <==> Starts(t, "&#x"))
    ensures match PieceOf(t)
            case Incomplete => Pending(t)
            case ZeroReference => RefersToZero(t)
            case Stored(o, n) => Refers(t, n, o) || (o == [t[0]] && n == 1)
  {
    hide Radix, AllNibbles, NumberFrom, Utf8;
    var base, k := if hex then 16 else 10, DigitsAt(hex);
    NumberStarts(base, t, k);
    var number := NumberFrom(base, t, k, 0);
    if number.Value? {
      assert NumericAt(t, hex, number.length) && NumericValue(t, hex, number.length) == number.value;
    }
  }

  // ----- references spelled out -----------------------------------------------------------------

  /** Decimal digits stand for the number they were printed from. */
  lemma {:induction false} DecRadix(v: nat)
    ensures AllNibbles(Dec(v)) && Radix(Dec(v), 10) == v
  {
    hide Nibble;
    NibbleExists(0x30 + v % 10);
    var d := Dec(v);
    if v < 10 {
      assert d[..0] == [];
    } else {
      DecRadix(v / 10);
      assert d[..|d| - 1] == Dec(v / 10);
    }
  }

  function Numeric(hex: bool, digits: text): text {
    [AMPERSAND, HASH] + ((if hex then [0x78] else []) + (digits + [SEMICOLON]))
  }

  /** `&#digits;` and `&#xdigits;`, whatever follows, store the code point in UTF-8. */
  lemma NumericRead(hex: bool, digits: text, rest: text)
    requires AllNibbles(digits) && 0 < Radix(digits, if hex then 16 else 10) <= 0x10ffff
    ensures var v, t := Radix(digits, if hex then 16 else 10), Numeric(hex, digits);
            && Refers(t + rest, |t|, Utf8(v)) && PieceOf(t + rest) == Stored(Utf8(v), |t|)
            && CodePoint(Utf8(v)) == Some(v)
  {
    hide Radix, AllNibbles, Utf8, PieceOf, CodePoint;
    var v, t := Radix(digits, if hex then 16 else 10), Numeric(hex, digits);
    var w, k := t + rest, DigitsAt(hex);
    assert w[k..|t| - 1] == digits;
    assert NumericAt(w, hex, |t|) && NumericValue(w, hex, |t|) == v;
    ReferenceRead(w, |t|, Utf8(v));
    Utf8Read(v);
  }

  /** `&#` and the decimal digits of any code point but zero. */
  lemma DecimalRead(v: nat, rest: text)
    requires 0 < v <= 0x10ffff
    ensures var t := Numeric(false, Dec(v));
            PieceOf(t + rest) == Stored(Utf8(v), |t|) && CodePoint(Utf8(v)) == Some(v)
  {
    hide Dec, PieceOf, CodePoint, Utf8, Radix, AllNibbles;
    DecRadix(v);
    NumericRead(false, Dec(v), rest);
  }

  /** Entity text piece by piece: an octet for itself, or a reference with what it stands for. */
  datatype Segment = Itself(octet: octet) | Reference(spelling: text, octets: seq<octet>)

  ghost predicate WellSpelled(s: Segment) {
    if s.Itself? then s.octet != AMPERSAND && s.octet != LESS
    else (forall i :: 0 <= i < |s.spelling| ==> s.spelling[i] != LESS) && Refers(s.spelling, |s.spelling|, s.octets)
  }

  function TextOf(segments: seq<Segment>): text {
    if segments == [] then []
    else (match segments[0] case Itself(c) => [c] case Reference(t, _) => t) + TextOf(segments[1..])
  }

  function OctetsOf(segments: seq<Segment>): seq<octet> {
    if segments == [] then []
    else (match segments[0] case Itself(c) => [c] case Reference(_, o) => o) + OctetsOf(segments[1..])
  }

  lemma StartsMore(t: text, rest: text, s: string)
    requires Starts(t, s)
    ensures Starts(t + rest, s)
  {
  }

  lemma NumericMore(t: text, rest: text, hex: bool, n: nat)
    requires NumericAt(t, hex, n)
    ensures NumericAt(t + rest, hex, n) && NumericValue(t + rest, hex, n) == NumericValue(t, hex, n)
  {
    hide Radix, AllNibbles, Starts;
    StartsMore(t, rest, if hex then "&#x" else "&#");
    SliceWithin(t, rest, DigitsAt(hex), n - 1);
  }

  lemma SliceWithin(t: text, rest: text, i: nat, j: nat)
    requires i <= j <= |t|
    ensures (t + rest)[i..j] == t[i..j]
  {
  }

  /** A reference is one whatever follows it. */
  lemma RefersStarts(t: text, rest: text, n: nat, o: seq<octet>)
    requires Refers(t, n, o)
    ensures Refers(t + rest, n, o)
  {
    hide Utf8, Starts, NumericAt, NumericValue;
    if Starts(t, "&amp;") && n == 5 && o == ['&' as int] {
      StartsMore(t, rest, "&amp;");
    } else if Starts(t, "&lt;") && n == 4 && o == ['<' as int] {
      StartsMore(t, rest, "&lt;");
    } else if Starts(t, "&gt;") && n == 4 && o == ['>' as int] {
      StartsMore(t, rest, "&gt;");
    } else {
      var hex :| NumericAt(t, hex, n) && 0 < NumericValue(t, hex, n) <= 0x10ffff
        && o == Utf8(NumericValue(t, hex, n));
      NumericMore(t, rest, hex, n);
    }
  }

  /** Entity text is read as what its pieces stand for. */
  lemma {:induction false} SegmentsRead(segments: seq<Segment>, more: bool)
    requires forall i :: 0 <= i < |segments| ==> WellSpelled(segments[i])
    ensures Expand(TextOf(segments), more) == Some(Taken(|TextOf(segments)|, OctetsOf(segments)))
    ensures forall i :: 0 <= i < |TextOf(segments)| ==> TextOf(segments)[i] != LESS
  {
    hide PieceOf, Refers;
    if segments != [] {
      SegmentsRead(segments[1..], more);
      var t, rest := TextOf(segments), TextOf(segments[1..]);
      assert WellSpelled(segments[0]);
      match segments[0]
      case Itself(c) =>
        assert t == [c] + rest && t[1..] == rest;
        NoReference(t);
      case Reference(u, o) =>
        assert t == u + rest && t[|u|..] == rest;
        RefersStarts(u, rest, |u|, o);
        ReferenceRead(t, |u|, o);
        ReferenceStarts(u, |u|, o);
    }
  }

  lemma NoReference(t: text)
    requires t != [] && t[0] != AMPERSAND
    ensures PieceOf(t) == Stored([t[0]], 1)
  {
  }

  lemma ReferenceStarts(t: text, n: nat, o: seq<octet>)
    requires Refers(t, n, o)
    ensures t != [] && n > 0
  {
  }
}
