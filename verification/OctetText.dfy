/**
  The text a string element may hold in XER, and the three receivers that turn it
  into octets: hexadecimal digits, binary digits, and UTF-8 with entity references.
  Each is given the text that has arrived so far and may leave a tail of it unread.
 */
module OctetText {
  import opened Octets
  import opened Decimal
  import opened BitStream
  import opened BitString

  const AMPERSAND: octet := 0x26
  const HASH: octet := 0x23
  const SEMICOLON: octet := 0x3b

  /** Text octets read and octets stored for them. */
  datatype Taken = Taken(length: nat, octets: seq<octet>)

  predicate IsBlank(c: octet) {
    c == 0x09 || c == 0x0a || c == 0x0c || c == 0x0d || c == 0x20
  }

  predicate AllBlank(t: text) {
    forall i :: 0 <= i < |t| ==> IsBlank(t[i])
  }

  // ----- hexadecimal -----------------------------------------------------------------

  /** What stands at the front of a text, up to the second digit. */
  datatype Group =
    | Bad
    | Blank
    | Half(digit: nat)
    | Pair(octet: octet, length: nat)

  function GroupFrom(t: text, i: nat, half: Option<nat>): (g: Group)
    requires i <= |t| && (half.Some? ==> half.value < 16)
    ensures g.Half? ==> g.digit < 16
    ensures g.Pair? ==> i < g.length <= |t|
    decreases |t| - i
  {
    if i == |t| then
      if half == None then Blank else Half(half.value)
    else if IsBlank(t[i]) then GroupFrom(t, i + 1, half)
    else
      match DigitValue(t[i])
      case None => Bad
      case Some(v) =>
        if half == None then GroupFrom(t, i + 1, Some(v)) else Pair(16 * half.value + v, i + 1)
  }

  /** Pairs of digits, blanks between them skipped; a digit left alone waits unless no more text can come. */
  function Hex(t: text, more: bool): (r: Option<Taken>)
    ensures r.Some? ==> r.value.length <= |t|
    ensures r.Some? && more ==> r.value.length == |t|
    decreases |t|
  {
    match GroupFrom(t, 0, None)
    case Bad => None
    case Blank => Some(Taken(|t|, []))
    case Half(d) => Some(if more then Taken(|t|, [16 * d]) else Taken(0, []))
    case Pair(o, n) =>
      var rest :- Hex(t[n..], more);
      Some(Taken(n + rest.length, [o] + rest.octets))
  }

  lemma {:induction false} GroupExtends(a: text, b: text, i: nat, half: Option<nat>)
    requires i <= |a| && (half.Some? ==> half.value < 16)
    ensures var g := GroupFrom(a, i, half);
            && (g.Bad? || g.Pair? ==> GroupFrom(a + b, i, half) == g)
            && (g.Blank? ==> half == None && GroupFrom(a + b, i, half) == GroupFrom(a + b, |a|, None))
    decreases |a| - i
  {
    if i < |a| {
      assert (a + b)[i] == a[i];
      if IsBlank(a[i]) {
        GroupExtends(a, b, i + 1, half);
      } else if DigitValue(a[i]).Some? && half == None {
        GroupExtends(a, b, i + 1, DigitValue(a[i]));
      }
    }
  }

  lemma {:induction false} GroupShifts(a: text, b: text, i: nat, half: Option<nat>)
    requires i <= |b| && (half.Some? ==> half.value < 16)
    ensures GroupFrom(a + b, |a| + i, half)
         == var g := GroupFrom(b, i, half);
            if g.Pair? then Pair(g.octet, |a| + g.length) else g
    decreases |b| - i
  {
    if i < |b| {
      assert (a + b)[|a| + i] == b[i];
      if IsBlank(b[i]) {
        GroupShifts(a, b, i + 1, half);
      } else if DigitValue(b[i]).Some? && half == None {
        GroupShifts(a, b, i + 1, DigitValue(b[i]));
      }
    }
  }

  /** What was taken from a first part, put before what is taken from the rest. */
  function Onto(first: Taken, rest: Option<Taken>): Option<Taken> {
    match rest
    case None => None
    case Some(r) => Some(Taken(first.length + r.length, first.octets + r.octets))
  }

  lemma OntoTwice(a: Taken, b: Taken, rest: Option<Taken>)
    ensures Onto(a, Onto(b, rest)) == Onto(Taken(a.length + b.length, a.octets + b.octets), rest)
  {
    if rest.Some? {
      assert a.octets + (b.octets + rest.value.octets) == (a.octets + b.octets) + rest.value.octets;
    }
  }

  lemma OntoNothing(rest: Option<Taken>)
    ensures Onto(Taken(0, []), rest) == rest
  {
    if rest.Some? { assert [] + rest.value.octets == rest.value.octets; }
  }

  lemma HexBlank(a: text, b: text, more: bool)
    requires GroupFrom(a, 0, None).Blank?
    ensures more ==> Hex(a + b, more) == Onto(Taken(|a|, []), Hex(b, more))
    ensures SameOctets(Hex(a + b, more), Hex(b, more))
  {
    hide Hex, GroupFrom;
    GroupExtends(a, b, 0, None);
    GroupShifts(a, b, 0, None);
    HexCases(b, more);
    HexCases(a + b, more);
    OntoOctets(Taken(|a|, []), Hex(b, more));
    var g := GroupFrom(b, 0, None);
    if g.Pair? {
      DropBoth(a, b, g.length);
      OntoTwice(Taken(|a|, []), Taken(g.length, [g.octet]), Hex(b[g.length..], more));
      Prepended(g.octet);
    } else if g.Half? {
      Prepended(16 * g.digit);
    }
  }

  lemma Prepended(o: octet)
    ensures [] + [o] == [o]
  {
  }

  lemma DropBoth(a: text, b: text, n: nat)
    requires n <= |b|
    ensures (a + b)[|a| + n..] == b[n..]
  {
  }

  lemma HexCases(t: text, more: bool)
    ensures var g := GroupFrom(t, 0, None);
            Hex(t, more)
            == if g.Bad? then None
               else if g.Blank? then Some(Taken(|t|, []))
               else if g.Half? then Some(if more then Taken(|t|, [16 * g.digit]) else Taken(0, []))
               else Onto(Taken(g.length, [g.octet]), Hex(t[g.length..], more))
  {
  }

  /** The same octets, or refused alike; how much was read may differ. */
  predicate SameOctets(x: Option<Taken>, y: Option<Taken>) {
    && (x.Some? <==> y.Some?)
    && (x.Some? ==> x.value.octets == y.value.octets)
  }

  /** The first part read, then its unread tail with the second part, is the whole read at once. */
  lemma {:induction false} HexSplit(a: text, b: text, more: bool)
    ensures var first := Hex(a, false);
            if first == None then Hex(a + b, more) == None
            else
              var rest := Onto(first.value, Hex(a[first.value.length..] + b, more));
              && (more ==> Hex(a + b, more) == rest)
              && SameOctets(Hex(a + b, more), rest)
    decreases |a|
  {
    hide Hex;
    GroupExtends(a, b, 0, None);
    HexCases(a, false);
    match GroupFrom(a, 0, None)
    case Bad =>
      HexCases(a + b, more);
    case Blank =>
      HexBlank(a, b, more);
      assert a[|a|..] + b == b;
      OntoOctets(Taken(|a|, []), Hex(b, more));
    case Half(_) =>
      assert a[0..] + b == a + b;
      OntoNothing(Hex(a + b, more));
    case Pair(o, n) =>
      HexSplit(a[n..], b, more);
      HexPairs(a, b, o, n, more);
  }

  /** What a first read leaves holds no whole pair. */
  lemma {:induction false} HexStalls(t: text)
    ensures Hex(t, false).Some? ==> Hex(t[Hex(t, false).value.length..], false) == Some(Taken(0, []))
    decreases |t|
  {
    HexCases(t, false);
    var g := GroupFrom(t, 0, None);
    if g.Blank? {
      HexCases([], false);
    } else if g.Half? {
      assert t[0..] == t;
    } else if g.Pair? {
      HexStalls(t[g.length..]);
      var rest := Hex(t[g.length..], false);
      if rest.Some? { assert t[g.length + rest.value.length..] == t[g.length..][rest.value.length..]; }
    }
  }

  lemma OntoOctets(k: Taken, rest: Option<Taken>)
    ensures k.octets == [] ==> SameOctets(Onto(k, rest), rest)
    ensures forall r :: SameOctets(r, rest) ==> SameOctets(Onto(k, r), Onto(k, rest))
  {
    if rest.Some? { assert [] + rest.value.octets == rest.value.octets; }
  }

  /** One pair in front of a split text. */
  lemma HexPairs(a: text, b: text, o: octet, n: nat, more: bool)
    requires GroupFrom(a, 0, None) == Pair(o, n) == GroupFrom(a + b, 0, None)
    requires var first := Hex(a[n..], false);
             if first == None then Hex(a[n..] + b, more) == None
             else
               var rest := Onto(first.value, Hex(a[n..][first.value.length..] + b, more));
               && (more ==> Hex(a[n..] + b, more) == rest)
               && SameOctets(Hex(a[n..] + b, more), rest)
    ensures var first := Hex(a, false);
            if first == None then Hex(a + b, more) == None
            else
              var rest := Onto(first.value, Hex(a[first.value.length..] + b, more));
              && (more ==> Hex(a + b, more) == rest)
              && SameOctets(Hex(a + b, more), rest)
  {
    HexCases(a, false);
    HexCases(a + b, more);
    hide Hex, GroupFrom;
    assert (a + b)[n..] == a[n..] + b;
    var first := Hex(a[n..], false);
    if first.Some? {
      var k := first.value;
      var tail := Hex(a[n..][k.length..] + b, more);
      assert a[n + k.length..] == a[n..][k.length..];
      OntoTwice(Taken(n, [o]), k, tail);
      OntoOctets(Taken(n, [o]), Onto(k, tail));
    }
  }

  /** The estimate `size + (chunk_size + 1) / 2` suffices. */
  lemma {:induction false} HexFits(t: text, more: bool)
    ensures Hex(t, more).Some? ==> |Hex(t, more).value.octets| <= (|t| + 1) / 2
    decreases |t|
  {
    match GroupFrom(t, 0, None)
    case Pair(o, n) =>
      PairIsTwo(t, 0, None);
      HexFits(t[n..], more);
    case Half(_) => assert t != [];
    case _ =>
  }

  lemma {:induction false} PairIsTwo(t: text, i: nat, half: Option<nat>)
    requires i <= |t| && (half.Some? ==> half.value < 16)
    requires GroupFrom(t, i, half).Pair?
    ensures GroupFrom(t, i, half).length >= i + if half == None then 2 else 1
    decreases |t| - i
  {
    if IsBlank(t[i]) {
      PairIsTwo(t, i + 1, half);
    } else if half == None {
      PairIsTwo(t, i + 1, DigitValue(t[i]));
    }
  }

  // ----- binary ------------------------------------------------------------------------

  /** The binary digits of a text, blanks skipped. */
  function Digits(t: text): Option<seq<bit>> {
    if t == [] then Some([])
    else if IsBlank(t[0]) then Digits(t[1..])
    else if t[0] == 0x30 || t[0] == 0x31 then
      var rest :- Digits(t[1..]);
      Some([t[0] - 0x30] + rest)
    else None
  }

  lemma {:induction false} DigitsConcat(a: text, b: text)
    ensures Digits(a + b) == BothDigits(Digits(a), Digits(b))
  {
    if a == [] {
      assert a + b == b;
      if Digits(b).Some? { assert [] + Digits(b).value == Digits(b).value; }
    } else {
      DigitsConcat(a[1..], b);
      DigitsCons(a);
      DigitsCons(a + b);
      hide Digits;
      assert (a + b)[1..] == a[1..] + b && (a + b)[0] == a[0];
      if Digits(a).Some? && Digits(b).Some? && !IsBlank(a[0]) {
        FrontDigit(a[0], Digits(a[1..]).value, Digits(b).value);
      }
    }
  }

  function BothDigits(x: Option<seq<bit>>, y: Option<seq<bit>>): Option<seq<bit>> {
    if x == None || y == None then None else Some(x.value + y.value)
  }

  lemma DigitsCons(t: text)
    requires t != []
    ensures Digits(t)
         == if IsBlank(t[0]) then Digits(t[1..])
            else if (t[0] == 0x30 || t[0] == 0x31) && Digits(t[1..]).Some?
            then Some([t[0] - 0x30] + Digits(t[1..]).value)
            else None
  {
  }

  lemma FrontDigit(c: octet, x: seq<bit>, y: seq<bit>)
    requires c == 0x30 || c == 0x31
    ensures [c - 0x30] + (x + y) == ([c - 0x30] + x) + y
  {
  }

  lemma {:induction false} DigitsFit(t: text)
    ensures Digits(t).Some? ==> |Digits(t).value| <= |t|
  {
    if t != [] {
      DigitsFit(t[1..]);
    }
  }

  // ----- binary digits laid into a structure -----------------------------------------------

  /** The bits of the last octet that the value does not use. */
  function UnusedBits(v: BitStr): (b: seq<bit>)
    requires v.Valid()
    ensures |b| == v.unused && OctetBits(v.buf) == v.Bits() + b
  {
    OctetBits(v.buf)[8 * |v.buf| - v.unused..]
  }

  function OrBit(x: bit, d: bit): bit {
    if x == 1 || d == 1 then 1 else 0
  }

  /** Digits or-ed into the bits that are there, and as they are beyond them. */
  function OrInto(there: seq<bit>, digits: seq<bit>): (b: seq<bit>)
    ensures |b| == |digits|
  {
    seq(|digits|, i requires 0 <= i < |digits| => if i < |there| then OrBit(there[i], digits[i]) else digits[i])
  }

  /** What is left of the current octet after n digits: the bits that were there, or zeros in a fresh one. */
  function LeftOver(there: seq<bit>, n: nat): (b: seq<bit>)
    ensures |b| <= if n < |there| then |there| else 7
  {
    if n < |there| then there[n..] else Zeros((8 - (n - |there|) % 8) % 8)
  }

  /** The value once digits have been or-ed in behind its bits. */
  function Laid(v: BitStr, digits: seq<bit>): BitStr
    requires v.Valid()
  {
    var there := UnusedBits(v);
    BitStr(Pack((v.Bits() + OrInto(there, digits)) + LeftOver(there, |digits|)), |LeftOver(there, |digits|)|)
  }

  lemma LaidWhole(v: BitStr, digits: seq<bit>)
    requires v.Valid()
    ensures (|v.Bits() + OrInto(UnusedBits(v), digits)| + |LeftOver(UnusedBits(v), |digits|)|) % 8 == 0
  {
    hide OctetBits, OrInto, UnusedBits, LeftOver;
    LeftOverLength(UnusedBits(v), |digits|);
    WholeCells(|v.buf|, v.unused, |digits|);
  }

  lemma LeftOverLength(there: seq<bit>, n: nat)
    ensures |LeftOver(there, n)| == if n < |there| then |there| - n else (8 - (n - |there|) % 8) % 8
  {
  }

  lemma WholeCells(cells: nat, unused: nat, n: nat)
    ensures (8 * cells - unused + n + if n < unused then unused - n else (8 - (n - unused) % 8) % 8) % 8 == 0
  {
    if n >= unused {
      UpToBoundary(n - unused);
      WholeMore(cells, n - unused + (8 - (n - unused) % 8) % 8);
    } else {
      WholeMore(cells, 0);
    }
  }

  lemma UpToBoundary(d: nat)
    ensures (d + (8 - d % 8) % 8) % 8 == 0
  {
  }

  lemma WholeMore(cells: nat, d: nat)
    requires d % 8 == 0
    ensures (8 * cells + d) % 8 == 0
  {
  }

  /** Behind a value whose unused bits are zero, the digits come out as they are. */
  lemma LaidClean(v: BitStr, digits: seq<bit>)
    requires v.Valid() && v.Clean()
    ensures Laid(v, digits) == OfBits(v.Bits() + digits)
  {
    hide OctetBits, Pack, OrInto, LeftOver;
    var there := UnusedBits(v);
    UnusedZeros(v);
    OrIntoZeros(v.unused, digits);
    LaidWhole(v, digits);
    LeftOverZeros(v.unused, |digits|);
    FilledOut(v.Bits() + digits, |LeftOver(there, |digits|)|);
  }

  lemma UnusedZeros(v: BitStr)
    requires v.Valid() && v.Clean()
    ensures UnusedBits(v) == Zeros(v.unused)
  {
    hide OctetBits;
    assert OctetBits(v.buf) == v.Bits() + Zeros(v.unused);
  }

  /** Bits filled out with zeros to whole octets. */
  lemma FilledOut(b: seq<bit>, n: nat)
    requires n <= 7 && (|b| + n) % 8 == 0
    ensures OfBits(b) == BitStr(Pack(b + Zeros(n)), n)
  {
    hide Pack;
    PackPadded(b, n);
  }

  lemma OrIntoZeros(n: nat, digits: seq<bit>)
    ensures OrInto(Zeros(n), digits) == digits
  {
  }

  lemma LeftOverZeros(n: nat, k: nat)
    requires n <= 7
    ensures LeftOver(Zeros(n), k) == Zeros(|LeftOver(Zeros(n), k)|)
    ensures |LeftOver(Zeros(n), k)| <= 7
  {
  }

  /**
    Behind stray unused bits the digits come out as they are exactly when every stray
    one that a digit meets is met by a one.
   */
  lemma LaidExact(v: BitStr, digits: seq<bit>)
    requires v.Valid()
    ensures var w, there := Laid(v, digits), UnusedBits(v);
            && w.Valid() && w.Bits() == v.Bits() + OrInto(there, digits)
            && (w.Bits() == v.Bits() + digits
                <==> forall i :: 0 <= i < |there| && i < |digits| && there[i] == 1 ==> digits[i] == 1)
  {
    hide OctetBits, Pack, OrInto, LeftOver;
    var w, there := Laid(v, digits), UnusedBits(v);
    var b, rest := v.Bits() + OrInto(there, digits), LeftOver(there, |digits|);
    LaidWhole(v, digits);
    OctetBitsOfPack(b + rest);
    assert (b + rest) + Zeros(0) == b + rest && (b + rest)[..|b|] == b;
    OrIntoExact(there, digits);
    if w.Bits() == v.Bits() + digits {
      assert OrInto(there, digits) == (v.Bits() + digits)[|v.Bits()|..] == digits;
    }
  }

  lemma OrIntoExact(there: seq<bit>, digits: seq<bit>)
    ensures OrInto(there, digits) == digits
        <==> forall i :: 0 <= i < |there| && i < |digits| && there[i] == 1 ==> digits[i] == 1
  {
    if OrInto(there, digits) == digits {
      forall i | 0 <= i < |there| && i < |digits| && there[i] == 1 ensures digits[i] == 1 {
        assert OrInto(there, digits)[i] == digits[i];
      }
    }
  }

  // ----- entity references -------------------------------------------------------------

  /** What `OS__strtoent` makes of the digits of a numeric reference. */
  datatype Number =
    | Invalid
    | Unfinished
    | Value(value: nat, length: nat)

  const LAST_CODEPOINT: nat := 0x10ffff

  /** Hexadecimal digits are accepted in base 10 too. */
  function NumberFrom(base: nat, t: text, i: nat, val: nat): (n: Number)
    requires i <= |t| && val <= LAST_CODEPOINT
    ensures n.Value? ==> n.value <= LAST_CODEPOINT && i < n.length <= |t|
    decreases |t| - i
  {
    if i == |t| then Unfinished
    else if t[i] == SEMICOLON then Value(val, i + 1)
    else
      match DigitValue(t[i])
      case None => Invalid
      case Some(v) =>
        if val * base + v > LAST_CODEPOINT then Invalid else NumberFrom(base, t, i + 1, val * base + v)
  }

  /** UTF-8 (RFC 3629, section 3). */
  function Utf8(v: nat): (s: seq<octet>)
    requires 0 < v <= LAST_CODEPOINT
  {
    if v < 0x80 then [v]
    else if v < 0x800 then [0xc0 + v / 64, 0x80 + v % 64]
    else if v < 0x10000 then [0xe0 + v / 4096, 0x80 + v / 64 % 64, 0x80 + v % 64]
    else [0xf0 + v / 262144, 0x80 + v / 4096 % 64, 0x80 + v / 64 % 64, 0x80 + v % 64]
  }

  /** What is stored for the front of a text that is not empty. */
  datatype Piece =
    | Incomplete
    | ZeroReference
    | Stored(octets: seq<octet>, length: nat)

  /** The first semicolon among the first n octets. */
  function Semicolon(t: text, i: nat, n: nat): (r: Option<nat>)
    requires i <= n <= |t|
    ensures r.Some? ==> i <= r.value < n && t[r.value] == SEMICOLON
    decreases n - i
  {
    if i == n then None else if t[i] == SEMICOLON then Some(i) else Semicolon(t, i + 1, n)
  }

  function Verbatim(t: text): Piece
    requires t != []
  {
    Stored([t[0]], 1)
  }

  function NumericReference(t: text): (p: Piece)
    requires |t| >= 2 && t[0] == AMPERSAND && t[1] == HASH
    ensures p.Stored? ==> 0 < p.length <= |t|
  {
    if |t| == 2 then Incomplete
    else
      var start := if t[2] == 0x78 then 3 else 2;
      match NumberFrom(if t[2] == 0x78 then 16 else 10, t, start, 0)
      case Invalid => Verbatim(t)
      case Unfinished => Incomplete
      case Value(v, n) => if v == 0 then ZeroReference else Stored(Utf8(v), n)
  }

  /** `&amp;`, `&lt;` and `&gt;`, sought within five octets. */
  function NamedReference(t: text): (p: Piece)
    requires |t| >= 2 && t[0] == AMPERSAND
    ensures p.Stored? ==> 0 < p.length <= |t|
  {
    match Semicolon(t, 0, if |t| > 5 then 5 else |t|)
    case None => Incomplete
    case Some(sc) =>
      if sc == 4 && t[1..4] == [0x61, 0x6d, 0x70] then Stored([AMPERSAND], 5)
      else if sc == 3 && t[1..3] == [0x6c, 0x74] then Stored([LESS], 4)
      else if sc == 3 && t[1..3] == [0x67, 0x74] then Stored([GREATER], 4)
      else Verbatim(t)
  }

  function PieceOf(t: text): (p: Piece)
    requires t != []
    ensures p.Stored? ==> 0 < p.length <= |t|
  {
    if t[0] != AMPERSAND then Verbatim(t)
    else if |t| == 1 then Incomplete
    else if t[1] == HASH then NumericReference(t)
    else NamedReference(t)
  }

  /** The text with its references expanded; None when the code runs into its `assert(val > 0)`. */
  function Expand(t: text, more: bool): (r: Option<Taken>)
    ensures r.Some? ==> r.value.length <= |t|
    ensures r.Some? && more ==> r.value.length == |t|
    decreases |t|
  {
    if t == [] then Some(Taken(0, []))
    else
      match PieceOf(t)
      case ZeroReference => None
      case Stored(octets, n) => Onto(Taken(n, octets), Expand(t[n..], more))
      case Incomplete =>
        if more then Onto(Taken(1, [t[0]]), Expand(t[1..], more)) else Some(Taken(0, []))
  }

  lemma {:induction false} NumberExtends(base: nat, a: text, b: text, i: nat, val: nat)
    requires i <= |a| && val <= LAST_CODEPOINT
    ensures var n := NumberFrom(base, a, i, val);
            !n.Unfinished? ==> NumberFrom(base, a + b, i, val) == n
    decreases |a| - i
  {
    if i < |a| {
      assert (a + b)[i] == a[i];
      var v := DigitValue(a[i]);
      if a[i] != SEMICOLON && v.Some? && val * base + v.value <= LAST_CODEPOINT {
        NumberExtends(base, a, b, i + 1, val * base + v.value);
      }
    }
  }

  lemma {:induction false} SemicolonExtends(a: text, b: text, i: nat, m: nat, n: nat)
    requires i <= m <= |a| && m <= n <= |a| + |b|
    ensures Semicolon(a, i, m).Some? ==> Semicolon(a + b, i, n) == Semicolon(a, i, m)
    decreases m - i
  {
    if i < m {
      assert (a + b)[i] == a[i];
      if a[i] != SEMICOLON {
        SemicolonExtends(a, b, i + 1, m, n);
      }
    }
  }

  /** A piece that is complete stays the same whatever text follows. */
  lemma PieceExtends(a: text, b: text)
    requires a != []
    ensures !PieceOf(a).Incomplete? ==> PieceOf(a + b) == PieceOf(a)
  {
    var w := a + b;
    assert forall i :: 0 <= i < |a| ==> w[i] == a[i];
    if a[0] == AMPERSAND && |a| > 1 {
      if a[1] == HASH {
        if |a| > 2 {
          var start := if a[2] == 0x78 then 3 else 2;
          NumberExtends(if a[2] == 0x78 then 16 else 10, a, b, start, 0);
        }
      } else {
        var m, n := if |a| > 5 then 5 else |a|, if |w| > 5 then 5 else |w|;
        SemicolonExtends(a, b, 0, m, n);
        if Semicolon(a, 0, m).Some? {
          var sc := Semicolon(a, 0, m).value;
          assert sc >= 4 ==> w[1..4] == a[1..4];
          assert sc >= 3 ==> w[1..3] == a[1..3];
        }
      }
    }
  }

  lemma {:induction false} ExpandSplit(a: text, b: text, more: bool)
    ensures var first := Expand(a, false);
            Expand(a + b, more)
            == if first == None then None else Onto(first.value, Expand(a[first.value.length..] + b, more))
    decreases |a|
  {
    hide PieceOf;
    if a == [] || PieceOf(a).Incomplete? {
      assert a[0..] + b == a + b;
      OntoNothing(Expand(a + b, more));
    } else {
      PieceExtends(a, b);
      match PieceOf(a)
      case ZeroReference =>
      case Stored(octets, n) =>
        ExpandSplit(a[n..], b, more);
        assert (a + b)[n..] == a[n..] + b;
        var rest := Expand(a[n..], false);
        if rest.Some? {
          assert a[n + rest.value.length..] == a[n..][rest.value.length..];
          OntoTwice(Taken(n, octets), rest.value, Expand(a[n..][rest.value.length..] + b, more));
        }
    }
  }

  /** The estimate `size + chunk_size` suffices. */
  lemma {:induction false} ExpandFits(t: text, more: bool)
    ensures Expand(t, more).Some? ==> |Expand(t, more).value.octets| <= |t|
    decreases |t|
  {
    hide PieceOf;
    if t != [] {
      PieceFits(t);
      match PieceOf(t)
      case ZeroReference =>
      case Stored(_, n) => ExpandFits(t[n..], more);
      case Incomplete => ExpandFits(t[1..], more);
    }
  }

  lemma PieceFits(t: text)
    requires t != []
    ensures PieceOf(t).Stored? ==> |PieceOf(t).octets| <= PieceOf(t).length
  {
    if t[0] == AMPERSAND && |t| > 2 && t[1] == HASH {
      var start := if t[2] == 0x78 then 3 else 2;
      assert NumberFrom(10, t, 2, 0).Value? && t[2] == SEMICOLON ==> NumberFrom(10, t, 2, 0).value == 0;
    }
  }

  /** A stored piece is one octet taken as it is, or a reference: longer than what it stands for, with no `&` inside. */
  lemma PieceIsPlain(t: text)
    requires t != [] && PieceOf(t).Stored?
    ensures var p := PieceOf(t);
            if p.length == 1 then p == Verbatim(t)
            else
              && t[0] == AMPERSAND && |p.octets| < p.length
              && forall i :: 1 <= i < p.length ==> t[i] != AMPERSAND
  {
    if t[0] == AMPERSAND && |t| > 1 {
      if t[1] == HASH {
        if |t| > 2 {
          var start := if t[2] == 0x78 then 3 else 2;
          NumberIsPlain(if t[2] == 0x78 then 16 else 10, t, start, 0);
        }
      } else if PieceOf(t).length > 1 {
        var sc := PieceOf(t).length - 1;
        assert t[1..sc][0] == t[1] && t[1..sc][1] == t[2];
        if sc == 4 { assert t[1..4][2] == t[3]; }
      }
    }
  }

  /** The digits of a number, and how many there are at least. */
  lemma {:induction false} NumberIsPlain(base: nat, t: text, i: nat, val: nat)
    requires i <= |t| && val <= LAST_CODEPOINT && (base == 10 || base == 16)
    ensures var n := NumberFrom(base, t, i, val);
            n.Value? ==>
              && (forall k :: i <= k < n.length ==> t[k] != AMPERSAND)
              && (n.length == i + 1 ==> n.value == val)
              && (n.length == i + 2 ==> n.value <= 16 * val + 15)
    decreases |t| - i
  {
    if i < |t| && t[i] != SEMICOLON {
      var v := DigitValue(t[i]);
      if v.Some? && val * base + v.value <= LAST_CODEPOINT {
        NumberIsPlain(base, t, i + 1, val * base + v.value);
      }
    }
  }

  // ----- the receivers as one ------------------------------------------------------------

  /** The `body_receiver` a decoder is given. */
  datatype Receiver = Hexadecimal | Binary | Entities

  datatype Conversion =
    | Rejected                         // the return value -1
    | Aborted                          // a failed assertion
    | Done(length: nat, value: BitStr)

  /** What the binary receiver relies on: its own results, and a structure just allocated, have it. */
  predicate Good(r: Receiver, st: BitStr) {
    r == Binary ==> st.Valid() && st.Clean()
  }

  function Append(st: BitStr, octets: seq<octet>): BitStr {
    st.(buf := st.buf + octets)
  }

  /** One call of a receiver on the text at hand; `more` when something other than text follows it. */
  function Convert(r: Receiver, st: BitStr, t: text, more: bool): (c: Conversion)
    requires Good(r, st)
    ensures c.Done? ==> Good(r, c.value) && c.length <= |t| && (more ==> c.length == |t|)
  {
    match r
    case Hexadecimal =>
      (match Hex(t, more)
       case None => Rejected
       case Some(k) => Done(k.length, Append(st, k.octets)))
    case Entities =>
      (match Expand(t, more)
       case None => Aborted
       case Some(k) => Done(k.length, Append(st, k.octets)))
    case Binary =>
      (match Digits(t)
       case None => Rejected
       case Some(b) =>
         BitsOfBits(st.Bits() + b);
         Done(|t|, OfBits(st.Bits() + b)))
  }

  lemma ConvertNothing(r: Receiver, st: BitStr, more: bool)
    requires Good(r, st)
    ensures Convert(r, st, [], more) == Done(0, st)
  {
    assert st.buf + [] == st.buf;
    if r == Binary {
      OfBitsBits(st);
      assert st.Bits() + [] == st.Bits();
    }
  }

  /** Counting octets already read before those of a later call. */
  function Later(n: nat, c: Conversion): Conversion {
    if c.Done? then Done(n + c.length, c.value) else c
  }

  /** The same value, or the same failure; how much was read may differ. */
  predicate SameValue(c: Conversion, d: Conversion) {
    && (c.Done? <==> d.Done?)
    && (if c.Done? then c.value == d.value else c == d)
  }

  /**
    Restarting a receiver: a first part, then its unread tail together with the
    second part, comes to what the whole text does in one call. While more text may
    come the count read can differ, by trailing blanks only, but value and failures do not.
   */
  lemma ConvertSplit(r: Receiver, st: BitStr, a: text, b: text, more: bool)
    requires Good(r, st)
    ensures var c := Convert(r, st, a, false);
            if c.Done? then
              && c.length <= |a| && Good(r, c.value)
              && var rest := Convert(r, c.value, a[c.length..] + b, more);
              && (more ==> Convert(r, st, a + b, more) == Later(c.length, rest))
              && SameValue(Convert(r, st, a + b, more), rest)
            else Convert(r, st, a + b, more) == c
  {
    hide Hex, Expand, Digits, OfBits;
    match r
    case Hexadecimal =>
      HexSplit(a, b, more);
      if Hex(a, false).Some? {
        var k := Hex(a, false).value;
        AppendTwice(st, k, Hex(a[k.length..] + b, more));
      }
    case Entities =>
      ExpandSplit(a, b, more);
      if Expand(a, false).Some? {
        var k := Expand(a, false).value;
        AppendTwice(st, k, Expand(a[k.length..] + b, more));
      }
    case Binary =>
      DigitsConcat(a, b);
      if Digits(a).Some? {
        var x := st.Bits() + Digits(a).value;
        assert a[|a|..] + b == b;
        BitsOfBits(x);
        if Digits(b).Some? {
          assert x + Digits(b).value == st.Bits() + (Digits(a).value + Digits(b).value);
        }
      }
  }

  /** A first call leaves nothing that a second would take before more text comes. */
  lemma ConvertStalls(r: Receiver, st: BitStr, t: text)
    requires Good(r, st)
    ensures var c := Convert(r, st, t, false);
            c.Done? ==> Good(r, c.value) && Convert(r, c.value, t[c.length..], false) == Done(0, c.value)
  {
    hide Hex, Expand, Digits, OfBits;
    var c := Convert(r, st, t, false);
    if c.Done? {
      var rest := t[c.length..];
      match r
      case Hexadecimal =>
        HexStalls(t);
        assert c.value.buf + [] == c.value.buf;
      case Entities =>
        ExpandSplit(t, [], false);
        assert t + [] == t && rest + [] == rest;
        var k, e := Expand(t, false).value, Expand(rest, false);
        assert Onto(k, e) == Some(k);
        assert |k.octets + e.value.octets| == |k.octets|;
        assert c.value.buf + [] == c.value.buf;
      case Binary =>
        assert rest == [];
        ConvertNothing(r, c.value, false);
    }
  }

  lemma AppendTwice(st: BitStr, k: Taken, rest: Option<Taken>)
    ensures Onto(k, rest).Some? <==> rest.Some?
    ensures rest.Some? ==>
              Append(Append(st, k.octets), rest.value.octets) == Append(st, Onto(k, rest).value.octets)
  {
    if rest.Some? {
      assert (st.buf + k.octets) + rest.value.octets == st.buf + (k.octets + rest.value.octets);
    }
  }
}
