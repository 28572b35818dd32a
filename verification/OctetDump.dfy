/**
  Strings as XER text: hexadecimal and binary digits, laid out or canonical, and
  UTF-8 with the characters XML cannot carry written as empty tags and references.
 */
module OctetDump {
  import opened Octets
  import opened Decimal
  import opened BitStream
  import opened BitString
  import opened OctetReceivers
  import opened OctetText

  const NEWLINE: octet := 0x0a
  const SPACE: octet := 0x20

  /** `ASN__TEXT_INDENT(1, level)` */
  function Indent(level: int): (t: text)
    ensures AllBlank(t)
  {
    [NEWLINE] + seq(if level < 0 then 0 else 4 * level, _ => SPACE)
  }

  /** A line feed, and four blanks to each level below the outermost. */
  lemma IndentIs(level: int)
    ensures Indent(level)[0] == 0x0a
    ensures forall i :: 0 < i < |Indent(level)| ==> Indent(level)[i] == 0x20
    ensures |Indent(level)| == if level <= 0 then 1 else 1 + 4 * level
  {
    assert level > 0 ==> |seq(4 * level, _ => SPACE)| == 4 * level;
  }

  // ----- hexadecimal -----------------------------------------------------------------

  /** Canonical form: nothing but digits. */
  function HexDigits(s: seq<octet>): text {
    if s == [] then [] else HexPair(s[0]) + HexDigits(s[1..])
  }

  /** What precedes octet i in the laid-out form: a new line before every sixteenth, unless all fit on one. */
  function LineBreak(i: nat, size: nat, level: int): text {
    if i % 16 == 0 && (i > 0 || size > 16) then Indent(level) else []
  }

  /** The laid-out octets from i on, each followed by a space except the last. */
  function HexLines(s: seq<octet>, i: nat, level: int): text
    decreases |s| - i
  {
    if i >= |s| then []
    else LineBreak(i, |s|, level) + (HexPair(s[i]) +
           ((if i + 1 < |s| then [SPACE] else []) + HexLines(s, i + 1, level)))
  }

  /** What `OCTET_STRING_encode_xer` prints. */
  function HexText(s: seq<octet>, canonical: bool, level: int): text {
    if canonical then HexDigits(s)
    else HexLines(s, 0, level) + (if |s| > 16 then Indent(level - 1) else [])
  }

  lemma HexDigitBack(n: nat)
    requires n < 16
    ensures DigitValue(HexDigit(n)) == Some(n)
    ensures !IsBlank(HexDigit(n))
  {
  }

  /** A printed pair is read as its octet, whatever follows. */
  lemma HexPairRead(o: octet, t: text, more: bool)
    ensures Hex(HexPair(o) + t, more) == Onto(Taken(2, [o]), Hex(t, more))
  {
    var w := HexPair(o) + t;
    HexDigitBack(o / 16);
    HexDigitBack(o % 16);
    assert w[0] == HexDigit(o / 16) && w[1] == HexDigit(o % 16);
    assert GroupFrom(w, 1, Some(o / 16)) == Pair(o, 2);
    assert GroupFrom(w, 0, None) == Pair(o, 2);
    HexCases(w, more);
    assert w[2..] == t;
  }

  lemma {:induction false} BlankGroup(w: text, i: nat)
    requires AllBlank(w) && i <= |w|
    ensures GroupFrom(w, i, None) == Blank
    decreases |w| - i
  {
    if i < |w| {
      BlankGroup(w, i + 1);
    }
  }

  /** Blanks in front are read and yield nothing. */
  lemma BlanksRead(w: text, t: text)
    requires AllBlank(w)
    ensures Hex(w + t, true) == Onto(Taken(|w|, []), Hex(t, true))
  {
    BlankGroup(w, 0);
    HexBlank(w, t, true);
  }

  lemma BlankIsNothing(w: text)
    requires AllBlank(w)
    ensures Hex(w, true) == Some(Taken(|w|, []))
  {
    BlankGroup(w, 0);
  }

  lemma {:induction false} HexDigitsRead(s: seq<octet>)
    ensures Hex(HexDigits(s), true) == Some(Taken(|HexDigits(s)|, s))
  {
    if s != [] {
      HexPairRead(s[0], HexDigits(s[1..]), true);
      HexDigitsRead(s[1..]);
      assert [s[0]] + s[1..] == s;
    } else {
      BlankIsNothing([]);
    }
  }

  /** One octet between blanks, before text that is read whole. */
  lemma HexLineRead(pre: text, o: octet, gap: text, rest: text, octets: seq<octet>)
    requires AllBlank(pre) && AllBlank(gap)
    requires Hex(rest, true) == Some(Taken(|rest|, octets))
    ensures var t := pre + (HexPair(o) + (gap + rest));
            Hex(t, true) == Some(Taken(|t|, [o] + octets))
  {
    hide Hex, HexPair;
    BlanksRead(pre, HexPair(o) + (gap + rest));
    HexPairRead(o, gap + rest, true);
    BlanksRead(gap, rest);
    assert [] + ([o] + ([] + octets)) == [o] + octets;
  }

  lemma TailInside(a: text, b: text, c: text, d: text, tail: text)
    ensures (a + (b + (c + d))) + tail == a + (b + (c + (d + tail)))
  {
  }

  lemma {:induction false} HexLinesRead(s: seq<octet>, i: nat, level: int, tail: text)
    requires i <= |s| && AllBlank(tail)
    ensures Hex(HexLines(s, i, level) + tail, true) == Some(Taken(|HexLines(s, i, level)| + |tail|, s[i..]))
    decreases |s| - i
  {
    hide Hex, Indent, HexPair;
    if i < |s| {
      var gap: text := if i + 1 < |s| then [SPACE] else [];
      var rest := HexLines(s, i + 1, level);
      var pre, pair := LineBreak(i, |s|, level), HexPair(s[i]);
      assert HexLines(s, i, level) == pre + (pair + (gap + rest));
      TailInside(pre, pair, gap, rest, tail);
      HexLinesRead(s, i + 1, level, tail);
      HexLineRead(pre, s[i], gap, rest + tail, s[i + 1..]);
      assert s[i..] == [s[i]] + s[i + 1..];
    } else {
      assert [] + tail == tail && s[i..] == [];
      BlankIsNothing(tail);
    }
  }

  /** Either form, read back whole, appends exactly the octets printed. */
  lemma HexRoundTrip(s: seq<octet>, canonical: bool, level: int, st: BitStr)
    ensures var t := HexText(s, canonical, level);
            Convert(Hexadecimal, st, t, true) == Done(|t|, Append(st, s))
  {
    hide Hex, HexLines, HexDigits;
    if canonical {
      HexDigitsRead(s);
    } else {
      HexLinesRead(s, 0, level, if |s| > 16 then Indent(level - 1) else []);
      assert s[0..] == s;
    }
  }

  /** `OCTET_STRING_encode_xer`, canonical: a 52-character scratch buffer flushed as it fills. */
  method EncodeXerCanonical(buf: seq<octet>) returns (out: text)
    ensures out == HexText(buf, true, 0)
  {
    hide HexDigits, HexPair;
    var scratch := new octet[52];
    var p, i := 0, 0;
    out := [];
    assert [] + HexDigits(buf) == HexDigits(buf) && buf[0..] == buf;
    while i < |buf|
      invariant 0 <= i <= |buf| && 0 <= p <= 52
      invariant p % 2 == 0
      invariant HexDigits(buf) == (out + scratch[..p]) + HexDigits(buf[i..])
    {
      if p >= scratch.Length - 2 {
        out := out + scratch[..p];
        p := 0;
        assert out + scratch[..0] == out;
      }
      ghost var sofar := out + scratch[..p];
      FirstPair(buf, i);
      PutPair(scratch, p, buf[i]);
      p, i := p + 2, i + 1;
      assert sofar + (HexPair(buf[i - 1]) + HexDigits(buf[i..]))
          == (out + scratch[..p]) + HexDigits(buf[i..]);
    }
    out := out + scratch[..p];
    NoPairs(buf);
  }

  lemma FirstPair(buf: seq<octet>, i: nat)
    requires i < |buf|
    ensures HexDigits(buf[i..]) == HexPair(buf[i]) + HexDigits(buf[i + 1..])
  {
    assert buf[i..][1..] == buf[i + 1..];
  }

  lemma NoPairs(buf: seq<octet>)
    ensures HexDigits(buf[|buf|..]) == []
  {
  }

  method PutSpaced(scratch: array<octet>, p: nat, o: octet)
    requires p + 3 <= scratch.Length
    modifies scratch
    ensures scratch[..p + 3] == old(scratch[..p]) + HexPair(o) + [SPACE]
  {
    hide HexPair;
    PutPair(scratch, p, o);
    scratch[p + 2] := SPACE;
  }

  /** `OCTET_STRING_encode_xer`, laid out: sixteen octets to a line. */
  method EncodeXerPretty(buf: seq<octet>, level: int) returns (out: text)
    ensures out == HexText(buf, false, level)
  {
    hide HexLines, HexText, HexPair, Indent, LineBreak, Column;
    var scratch := new octet[52];
    var p, i := 0, 0;
    out := [];
    ghost var all := HexLines(buf, 0, level);
    assert [] + all == all;
    NextColumn(0);
    while i < |buf|
      invariant 0 <= i <= |buf| && p == 3 * Column(i) <= 48
      invariant i == 0 ==> out == []
      invariant i < |buf| ==> all == (out + scratch[..p]) + HexLines(buf, i, level)
      invariant i > 0 && i == |buf| ==> out + scratch[..p] == all + [SPACE]
    {
      ghost var sofar := out + scratch[..p];
      LineBreakIs(sofar, i, |buf|, level);
      NextColumn(i);
      if i % 16 == 0 && (i > 0 || |buf| > 16) {
        out := out + scratch[..p];
        p := 0;
        out := out + Indent(level);
        assert out + scratch[..p] == out;
      }
      ghost var line := scratch[..p];
      PutSpaced(scratch, p, buf[i]);
      Reassociate(out, line, HexPair(buf[i]), [SPACE]);
      Associative(line, HexPair(buf[i]), [SPACE]);
      LineStep(all, sofar, buf, i, level);
      p, i := p + 3, i + 1;
    }
    LinesEnd(buf, level);
    NextColumn(|buf|);
    if p > 0 {
      DropLast(out, scratch[..p], all, SPACE);
      assert scratch[..p][..p - 1] == scratch[..p - 1];
      p := p - 1;
      out := out + scratch[..p];
      if |buf| > 16 { out := out + Indent(level - 1); }
    }
  }

  /** How many octets stand in the scratch buffer before octet i. */
  function Column(i: nat): nat {
    if i == 0 then 0 else (i - 1) % 16 + 1
  }

  lemma NextColumn(i: nat)
    ensures Column(i) <= 16 && Column(i + 1) <= 16 && Column(0) == 0 && (i > 0 ==> Column(i) > 0)
    ensures Column(i + 1) == if i % 16 == 0 then 1 else Column(i) + 1
  {
  }

  lemma LineBreakIs(sofar: text, i: nat, n: nat, level: int)
    ensures sofar + LineBreak(i, n, level)
         == if i % 16 == 0 && (i > 0 || n > 16) then sofar + Indent(level) else sofar
  {
    hide Indent;
  }

  lemma LinesEnd(buf: seq<octet>, level: int)
    ensures buf == [] ==> HexText(buf, false, level) == []
    ensures |buf| <= 16 ==> HexText(buf, false, level) == HexLines(buf, 0, level)
    ensures |buf| > 16 ==> HexText(buf, false, level) == HexLines(buf, 0, level) + Indent(level - 1)
  {
    assert HexLines(buf, 0, level) + [] == HexLines(buf, 0, level);
  }

  lemma LineStep(all: text, sofar: text, buf: seq<octet>, i: nat, level: int)
    requires i < |buf| && all == sofar + HexLines(buf, i, level)
    ensures var next := sofar + LineBreak(i, |buf|, level) + HexPair(buf[i]) + [SPACE];
            && (i + 1 < |buf| ==> all == next + HexLines(buf, i + 1, level))
            && (i + 1 == |buf| ==> next == all + [SPACE])
  {
    hide HexPair, LineBreak, HexLines;
    var line, pair, rest := LineBreak(i, |buf|, level), HexPair(buf[i]), HexLines(buf, i + 1, level);
    LinesFrom(buf, i, level);
    if i + 1 < |buf| {
      Reassociate(line, pair, [SPACE], rest);
      Reassociate(sofar, line, pair, [SPACE] + rest);
      Associative(sofar + line + pair, [SPACE], rest);
    } else {
      Associative(sofar, line, pair);
    }
  }

  lemma LinesFrom(buf: seq<octet>, i: nat, level: int)
    requires i < |buf|
    ensures HexLines(buf, i, level)
         == if i + 1 == |buf| then LineBreak(i, |buf|, level) + HexPair(buf[i])
            else LineBreak(i, |buf|, level) + (HexPair(buf[i]) + ([SPACE] + HexLines(buf, i + 1, level)))
  {
    hide HexPair, LineBreak;
    assert HexPair(buf[i]) + ([] + []) == HexPair(buf[i]);
  }

  // ----- binary ------------------------------------------------------------------------

  /** One character for each bit. */
  function BitsText(b: seq<bit>): (t: text)
    ensures |t| == |b|
  {
    seq(|b|, i requires 0 <= i < |b| => if b[i] == 1 then 0x31 else 0x30)
  }

  /** Text handed over and text still in the scratch buffer after m octets. */
  function Dumped(s: seq<octet>, m: nat, canonical: bool, level: int): (text, text)
    requires m <= |s|
  {
    if m == 0 then ([], [])
    else
      var (out, scratch) := Dumped(s, m - 1, canonical, level);
      var octet := BitsText(ToBits(s[m - 1], 8));
      if !canonical && (m - 1) % 8 == 0 then (out + scratch + Indent(level), octet)
      else if |scratch| >= 118 then (out + scratch, octet)
      else (out, scratch + octet)
  }

  /** The bits of the last octet that are in use. */
  function LastBits(v: BitStr): text {
    if v.buf == [] || v.unused > 7 then []
    else BitsText(ToBits(v.buf[|v.buf| - 1], 8)[..8 - v.unused])
  }

  /** What `BIT_STRING_encode_xer` prints: a last line that is full gets its break in front of it a second time. */
  function BinaryText(v: BitStr, canonical: bool, level: int): text {
    var m := if v.buf == [] then 0 else |v.buf| - 1;
    var (out, scratch) := Dumped(v.buf, m, canonical, level);
    out + (if !canonical && m % 8 == 0 then Indent(level) else []) + scratch + LastBits(v)
      + (if canonical then [] else Indent(level - 1))
  }

  lemma {:induction false} BitsTextRead(b: seq<bit>)
    ensures Digits(BitsText(b)) == Some(b)
  {
    if b != [] {
      BitsTextRead(b[1..]);
      assert BitsText(b)[1..] == BitsText(b[1..]);
      assert [b[0]] + b[1..] == b;
    }
  }

  lemma {:induction false} BlankDigits(w: text)
    requires AllBlank(w)
    ensures Digits(w) == Some([])
  {
    if w != [] {
      BlankDigits(w[1..]);
    }
  }

  /** Appending text that stands for bits appends the bits. */
  lemma DigitsAppend(t: text, x: seq<bit>, w: text, y: seq<bit>)
    requires Digits(t) == Some(x) && Digits(w) == Some(y)
    ensures Digits(t + w) == Some(x + y)
  {
    DigitsConcat(t, w);
  }

  lemma {:induction false} DumpedBits(s: seq<octet>, m: nat, canonical: bool, level: int)
    requires m <= |s|
    ensures var (out, scratch) := Dumped(s, m, canonical, level);
            exists x, y :: Digits(out) == Some(x) && Digits(scratch) == Some(y) && x + y == OctetBits(s[..m])
  {
    hide OctetBits, Digits, BitsText, ToBits, Indent;
    if m == 0 {
      BlankDigits([]);
      var none: seq<bit> := [];
      assert none + none == OctetBits(s[..0]);
    } else {
      DumpedBits(s, m - 1, canonical, level);
      var (out, scratch) := Dumped(s, m - 1, canonical, level);
      var x, y :| Digits(out) == Some(x) && Digits(scratch) == Some(y) && x + y == OctetBits(s[..m - 1]);
      var bits := ToBits(s[m - 1], 8);
      BitsTextRead(bits);
      BlankDigits(Indent(level));
      DigitsAppend(out, x, scratch, y);
      DigitsAppend(out + scratch, x + y, Indent(level), []);
      DigitsAppend(scratch, y, BitsText(bits), bits);
      OctetBitsConcat(s[..m - 1], [s[m - 1]]);
      OneOctet(s[m - 1]);
      assert s[..m] == s[..m - 1] + [s[m - 1]];
      assert x + (y + bits) == (x + y + []) + bits == (x + y) + bits;
    }
  }

  /** The text of a value holds exactly its bits. */
  lemma BinaryTextBits(v: BitStr, canonical: bool, level: int)
    requires v.Valid()
    ensures Digits(BinaryText(v, canonical, level)) == Some(v.Bits())
  {
    hide OctetBits, Digits, Dumped, BitsText, ToBits, Indent;
    var m := if v.buf == [] then 0 else |v.buf| - 1;
    var (out, scratch) := Dumped(v.buf, m, canonical, level);
    DumpedBits(v.buf, m, canonical, level);
    var x, y :| Digits(out) == Some(x) && Digits(scratch) == Some(y) && x + y == OctetBits(v.buf[..m]);
    var mid: text := if !canonical && m % 8 == 0 then Indent(level) else [];
    var end: text := if canonical then [] else Indent(level - 1);
    BlankDigits(mid);
    BlankDigits(end);
    var last := if v.buf == [] then [] else ToBits(v.buf[m], 8)[..8 - v.unused];
    LastBitsRead(v, last);
    DigitsAppend(out, x, mid, []);
    DigitsAppend(out + mid, x + [], scratch, y);
    DigitsAppend(out + mid + scratch, x + [] + y, LastBits(v), last);
    DigitsAppend(out + mid + scratch + LastBits(v), x + [] + y + last, end, []);
    assert x + [] + y + last + [] == (x + y) + last;
    WholeBits(v, m, last);
  }

  lemma LastBitsRead(v: BitStr, last: seq<bit>)
    requires v.Valid() && last == if v.buf == [] then [] else ToBits(v.buf[|v.buf| - 1], 8)[..8 - v.unused]
    ensures Digits(LastBits(v)) == Some(last)
  {
    hide ToBits, Digits;
    if v.buf == [] { BlankDigits([]); } else { BitsTextRead(last); }
  }

  lemma WholeBits(v: BitStr, m: nat, last: seq<bit>)
    requires v.Valid() && m == (if v.buf == [] then 0 else |v.buf| - 1)
    requires last == if v.buf == [] then [] else ToBits(v.buf[m], 8)[..8 - v.unused]
    ensures OctetBits(v.buf[..m]) + last == v.Bits()
  {
    hide OctetBits, ToBits;
    if v.buf == [] {
      assert v.buf[..0] == v.buf;
    } else {
      OctetBitsConcat(v.buf[..m], [v.buf[m]]);
      OneOctet(v.buf[m]);
      assert v.buf == v.buf[..m] + [v.buf[m]];
    }
  }

  /** Either form, read into a fresh structure, gives a value of exactly the bits printed. */
  lemma BinaryRoundTrip(v: BitStr, canonical: bool, level: int)
    requires v.Valid()
    ensures Good(Binary, BitStr([], 0))
    ensures var t := BinaryText(v, canonical, level);
            Convert(Binary, BitStr([], 0), t, true) == Done(|t|, OfBits(v.Bits()))
  {
    hide OctetBits, Digits, BinaryText, OfBits;
    BinaryTextBits(v, canonical, level);
    assert BitStr([], 0).Bits() == [] && [] + v.Bits() == v.Bits();
  }

  lemma BitOfField(v: octet, i: nat)
    requires i < 8
    ensures ToBits(v, 8)[7 - i] == Shr(v, i) % 2
  {
    ToBitsSplit(v, 8 - i, i);
    if i < 8 { assert ToBits(Shr(v, i), 8 - i)[7 - i] == Shr(v, i) % 2; }
  }

  /** `_bit_pattern` of both half octets. */
  lemma HalfPatterns(v: octet)
    ensures BitsText(ToBits(v / 16, 4)) + BitsText(ToBits(v % 16, 4)) == BitsText(ToBits(v, 8))
  {
    assert Pow2(4) == 16;
    var h := v / 16;
    assert Shl(h, 1) == 2 * h;
    assert Shl(h, 2) == 4 * h;
    assert Shl(h, 4) == 4 * Shl(h, 2);
    ToBitsJoin(v / 16, v % 16, 4, 4);
  }

  /** `BIT_STRING_encode_xer` with its 128-character scratch buffer. */
  method EncodeXerBinary(v: BitStr, canonical: bool, level: int) returns (out: text)
    ensures out == BinaryText(v, canonical, level)
  {
    hide BitsText, ToBits, Indent, Dumped;
    var scratch := new octet[128];
    assert scratch[..0] == [];
    DumpStep(v.buf, 0, canonical, level);
    var p, i, end := 0, 0, |v.buf| - 1;
    out := [];
    while i < end
      invariant 0 <= i && (i <= end || i == 0) && 0 <= p <= 120 && p % 8 == 0
      invariant (out, scratch[..p]) == Dumped(v.buf, i, canonical, level)
    {
      DumpStep(v.buf, i, canonical, level);
      var nline := !canonical && i % 8 == 0;
      if p >= scratch.Length - 10 || nline {
        out := out + scratch[..p];
        p := 0;
        if nline { out := out + Indent(level); }
        assert scratch[..p] + BitsText(ToBits(v.buf[i], 8)) == BitsText(ToBits(v.buf[i], 8));
      }
      PutOctet(scratch, p, v.buf[i]);
      p, i := p + 8, i + 1;
    }
    if !canonical && i % 8 == 0 { out := out + Indent(level); }
    out := out + scratch[..p];
    if i == end {
      var last := TopBits(v.buf[i], v.unused);
      out := out + last;
    }
    if !canonical { out := out + Indent(level - 1); }
  }

  lemma DumpStep(s: seq<octet>, i: nat, canonical: bool, level: int)
    requires i <= |s|
    ensures Dumped(s, 0, canonical, level) == ([], [])
    ensures i < |s| ==>
              var (out, scratch) := Dumped(s, i, canonical, level);
              var octet := BitsText(ToBits(s[i], 8));
              Dumped(s, i + 1, canonical, level)
              == if !canonical && i % 8 == 0 then (out + scratch + Indent(level), octet)
                 else if |scratch| >= 118 then (out + scratch, octet)
                 else (out, scratch + octet)
  {
  }

  /** The two `memcpy` of four characters. */
  method PutOctet(scratch: array<octet>, p: nat, v: octet)
    requires p + 8 <= scratch.Length
    modifies scratch
    ensures scratch[..p + 8] == old(scratch[..p]) + BitsText(ToBits(v, 8))
  {
    hide BitsText, ToBits;
    HalfPatterns(v);
    var hi, lo := BitsText(ToBits(v / 16, 4)), BitsText(ToBits(v % 16, 4));
    var q := StoreAll(scratch, p, hi);
    q := StoreAll(scratch, q, lo);
    assert old(scratch[..p]) + hi + lo == old(scratch[..p]) + (hi + lo);
  }

  /** The loop over the bits of the last octet, highest first. */
  method TopBits(v: octet, unused: nat) returns (t: text)
    ensures t == if unused > 7 then [] else BitsText(ToBits(v, 8)[..8 - unused])
  {
    hide ToBits;
    t := [];
    var i := 7;
    while i >= unused
      invariant -1 <= i <= 7 && (unused <= 7 ==> i >= unused - 1)
      invariant unused > 7 ==> i == 7
      invariant t == BitsText(ToBits(v, 8)[..7 - i])
    {
      BitOfField(v, i);
      t := t + [if Shr(v, i) % 2 != 0 then 0x31 else 0x30];
      i := i - 1;
    }
  }
}
