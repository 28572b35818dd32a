/**
  String elements from end to end: what the encoders print between an opening and
  a closing tag is decoded to the value printed, however the document is cut.
 */
module XerStrings {
  import opened Octets
  import opened Decimal
  import opened BitStream
  import opened BitString
  import opened OctetDump
  import opened OctetMeaning
  import opened OctetText
  import opened XerEscape
  import opened XerStream
  import opened XerRestart

  predicate NameChar(c: octet) {
    IsAlpha(c) || IsDigit(c) || c == 0x2d || c == 0x5f
  }

  /** Names of ASN.1 types. */
  predicate IsName(name: text) {
    name != [] && IsAlpha(name[0]) && forall i :: 0 <= i < |name| ==> NameChar(name[i])
  }

  function OpeningTag(name: text): text {
    [LESS] + name + [GREATER]
  }

  function ClosingTag(name: text): text {
    [LESS] + ([SLASH] + name) + [GREATER]
  }

  function Document(name: text, body: text): text {
    OpeningTag(name) + (body + ClosingTag(name))
  }

  // ----- tags --------------------------------------------------------------------------

  predicate TagChar(c: octet) {
    c != LESS && c != GREATER && c != EQUAL
  }

  lemma {:induction false} TagBodyScanned(buf: text, p: nat, end: nat)
    requires 0 < p <= end < |buf| && buf[end] == GREATER
    requires forall i :: p <= i < end ==> TagChar(buf[i])
    ensures Scan(TagBody, buf, p) == Some(Token(TagChunk, end + 1, Text))
    decreases end - p
  {
    if p < end {
      TagBodyScanned(buf, p + 1, end);
    }
  }

  /** A tag at the front is one token, whatever follows. */
  lemma TagScanned(body: text, rest: text)
    requires body != [] && (IsAlpha(body[0]) || body[0] == SLASH)
    requires forall i :: 0 <= i < |body| ==> TagChar(body[i])
    ensures NextToken(Text, ([LESS] + body + [GREATER]) + rest) == Some(Token(TagChunk, |body| + 2, Text))
  {
    var w := ([LESS] + body + [GREATER]) + rest;
    assert w[0] == LESS && w[|body| + 1] == GREATER;
    assert forall i :: 0 <= i < |body| ==> w[1 + i] == body[i];
    TagBodyScanned(w, 2, |body| + 1);
    assert Scan(TagStart, w, 1) == Scan(TagBody, w, 2);
  }

  lemma {:induction false} MatchNameIs(body: text, name: text, i: nat, ct: TagCheck)
    requires i <= |body| && i <= |name| && body[..i] == name[..i]
    requires forall k :: 0 <= k < |body| ==> NameChar(body[k])
    ensures MatchName(body, name, i, ct) == if body == name then ct else Unknown(ct)
    decreases |body| - i
  {
    if i < |body| && i < |name| && body[i] == name[i] {
      assert body[..i + 1] == body[..i] + [body[i]] && name[..i + 1] == name[..i] + [name[i]];
      MatchNameIs(body, name, i + 1, ct);
    } else if i == |body| {
      assert body == body[..i];
    } else if i == |name| {
      assert name == name[..i];
    }
  }

  lemma CheckOpening(name: text)
    requires IsName(name)
    ensures CheckTag(OpeningTag(name), name) == Opening
  {
    var t := OpeningTag(name);
    assert t[1] == name[0] && t[1..|t| - 1] == name;
    MatchNameIs(name, name, 0, Opening);
  }

  lemma CheckClosing(name: text)
    requires IsName(name)
    ensures CheckTag(ClosingTag(name), name) == Closing
  {
    var t := ClosingTag(name);
    assert t[1] == SLASH && t[2..|t| - 1] == name;
    MatchNameIs(name, name, 0, Closing);
  }

  /** An empty tag is the element's own, or unknown. */
  lemma CheckEmpty(tagName: text, name: text)
    requires IsName(tagName) && name != []
    ensures CheckTag([LESS] + tagName + [SLASH, GREATER], name)
         == if tagName == name then Both else UnknownBoth
  {
    var t := [LESS] + tagName + [SLASH, GREATER];
    var body := t[1..|t| - 1];
    assert t[1] == tagName[0] && body == tagName + [SLASH] && body[..|body| - 1] == tagName;
    MatchNameIs(tagName, name, 0, Both);
  }

  lemma RunClosing(r: Receiver, name: text, st: BitStr)
    requires Good(r, st) && IsName(name)
    ensures Run(r, name, InBody, Text, st, ClosingTag(name)) == Finished(|ClosingTag(name)|, st)
  {
    var t := ClosingTag(name);
    TagScanned([SLASH] + name, []);
    assert t + [] == t && t[..|t|] == t;
    CheckClosing(name);
    StepTag(r, name, InBody, Text, st, t);
  }

  lemma RunOpening(r: Receiver, name: text, st: BitStr, rest: text)
    requires Good(r, st) && IsName(name)
    ensures Run(r, name, Awaiting, Text, st, OpeningTag(name) + rest)
         == Advanced(|OpeningTag(name)|, Run(r, name, InBody, Text, st, rest))
  {
    hide Run;
    var t := OpeningTag(name);
    TagScanned(name, rest);
    assert (t + rest)[..|t|] == t && (t + rest)[|t|..] == rest;
    CheckOpening(name);
    StepTag(r, name, Awaiting, Text, st, t + rest);
  }

  // ----- bodies that are all text ----------------------------------------------------------

  /** Text that its receiver converts whole makes a document that decodes to what it converts to. */
  lemma DocumentRead(r: Receiver, name: text, st: BitStr, t: text, v: BitStr)
    requires Good(r, st) && Good(r, v) && IsName(name) && NoTag(t)
    requires Convert(r, st, t, true) == Done(|t|, v)
    ensures Run(r, name, Awaiting, Text, st, Document(name, t)) == Finished(|Document(name, t)|, v)
  {
    hide Run, Convert;
    RunOpening(r, name, st, t + ClosingTag(name));
    WholeText(r, name, st, t, ClosingTag(name));
    RunClosing(r, name, v);
  }

  /** What one call comes to, any cutting of the same document comes to. */
  lemma CutDocument(r: Receiver, name: text, st: BitStr, pieces: seq<text>)
    requires Good(r, st) && pieces != []
    requires Steady(r, name, Awaiting, Text, st, Join(pieces))
    ensures SameOutcome(Feed(r, name, Awaiting, Text, st, [], pieces),
                        Run(r, name, Awaiting, Text, st, Join(pieces)))
  {
    hide Run, Feed;
    assert [] + Join(pieces) == Join(pieces);
    AnyCutting(r, name, Awaiting, Text, st, [], pieces);
  }

  lemma BlanksHaveNoTag(t: text)
    requires AllBlank(t)
    ensures NoTag(t)
  {
  }

  lemma NoTagConcat(a: text, b: text)
    requires NoTag(a) && NoTag(b)
    ensures NoTag(a + b)
  {
  }

  lemma PairHasNoTag(o: octet)
    ensures NoTag(HexPair(o))
  {
  }

  lemma {:induction false} HexDigitsHaveNoTag(s: seq<octet>)
    ensures NoTag(HexDigits(s))
  {
    hide HexPair;
    if s != [] {
      PairHasNoTag(s[0]);
      HexDigitsHaveNoTag(s[1..]);
    }
  }

  lemma {:induction false} HexLinesHaveNoTag(s: seq<octet>, i: nat, level: int)
    ensures NoTag(HexLines(s, i, level))
    decreases |s| - i
  {
    hide HexPair, Indent;
    if i < |s| {
      PairHasNoTag(s[i]);
      BlanksHaveNoTag(Indent(level));
      HexLinesHaveNoTag(s, i + 1, level);
    }
  }

  /** OCTET STRING: any octets, in either form, under any cutting. */
  lemma HexDocument(name: text, s: seq<octet>, canonical: bool, level: int, pieces: seq<text>)
    requires IsName(name) && pieces != []
    requires Join(pieces) == Document(name, HexText(s, canonical, level))
    ensures Feed(Hexadecimal, name, Awaiting, Text, BitStr([], 0), [], pieces)
         == Finished(|Join(pieces)|, BitStr(s, 0))
  {
    hide Run, Feed, HexDigits, HexLines, Convert, Join, Document;
    var t := HexText(s, canonical, level);
    HexRoundTrip(s, canonical, level, BitStr([], 0));
    assert [] + s == s;
    HexDigitsHaveNoTag(s);
    HexLinesHaveNoTag(s, 0, level);
    BlanksHaveNoTag(Indent(level - 1));
    DocumentRead(Hexadecimal, name, BitStr([], 0), t, BitStr(s, 0));
    CutDocument(Hexadecimal, name, BitStr([], 0), pieces);
  }

  lemma BitsTextHasNoTag(b: seq<bit>)
    ensures NoTag(BitsText(b))
  {
  }

  lemma {:induction false} DumpedHasNoTag(s: seq<octet>, m: nat, canonical: bool, level: int)
    requires m <= |s|
    ensures NoTag(Dumped(s, m, canonical, level).0) && NoTag(Dumped(s, m, canonical, level).1)
  {
    hide BitsText, Indent;
    if m > 0 {
      DumpedHasNoTag(s, m - 1, canonical, level);
      BitsTextHasNoTag(ToBits(s[m - 1], 8));
      BlanksHaveNoTag(Indent(level));
    }
  }

  lemma BinaryTextHasNoTag(v: BitStr, canonical: bool, level: int)
    ensures NoTag(BinaryText(v, canonical, level))
  {
    hide BitsText, Indent, Dumped, ToBits, NoTag;
    var m := if v.buf == [] then 0 else |v.buf| - 1;
    var (out, scratch) := Dumped(v.buf, m, canonical, level);
    DumpedHasNoTag(v.buf, m, canonical, level);
    BlanksHaveNoTag(Indent(level));
    BlanksHaveNoTag(Indent(level - 1));
    BlanksHaveNoTag([]);
    if v.buf != [] && v.unused <= 7 { BitsTextHasNoTag(ToBits(v.buf[|v.buf| - 1], 8)[..8 - v.unused]); }
    var mid: text := if !canonical && m % 8 == 0 then Indent(level) else [];
    var end: text := if canonical then [] else Indent(level - 1);
    NoTagConcat(out, mid);
    NoTagConcat(out + mid, scratch);
    NoTagConcat(out + mid + scratch, LastBits(v));
    NoTagConcat(out + mid + scratch + LastBits(v), end);
  }

  /** BIT STRING: any valid value, in either form, under any cutting, gives a value of exactly its bits. */
  lemma BinaryDocument(name: text, v: BitStr, canonical: bool, level: int, pieces: seq<text>)
    requires IsName(name) && v.Valid() && pieces != []
    requires Join(pieces) == Document(name, BinaryText(v, canonical, level))
    ensures Good(Binary, BitStr([], 0))
    ensures Feed(Binary, name, Awaiting, Text, BitStr([], 0), [], pieces) == Finished(|Join(pieces)|, OfBits(v.Bits()))
  {
    hide Run, Feed, BinaryText, Convert, Join, Document, OctetBits, OfBits;
    BinaryRoundTrip(v, canonical, level);
    BitsOfBits(v.Bits());
    BinaryTextHasNoTag(v, canonical, level);
    DocumentRead(Binary, name, BitStr([], 0), BinaryText(v, canonical, level), OfBits(v.Bits()));
    CutDocument(Binary, name, BitStr([], 0), pieces);
  }

  // ----- documents the encoders do not write ---------------------------------------------------

  /** OCTET STRING: digits of either case, blanks anywhere between them. */
  lemma SpelledDocument(name: text, t: text, s: seq<octet>, pieces: seq<text>)
    requires IsName(name) && pieces != [] && Spells(Visible(t), s)
    requires Join(pieces) == Document(name, t)
    ensures Feed(Hexadecimal, name, Awaiting, Text, BitStr([], 0), [], pieces)
         == Finished(|Join(pieces)|, BitStr(s, 0))
  {
    hide Run, Feed, Join, Document, Visible, Hex;
    HexRead(t, s, true);
    assert [] + s == s;
    HexHasNoTag(t, s);
    DocumentRead(Hexadecimal, name, BitStr([], 0), t, BitStr(s, 0));
    CutDocument(Hexadecimal, name, BitStr([], 0), pieces);
  }

  lemma HexHasNoTag(t: text, s: seq<octet>)
    requires Spells(Visible(t), s)
    ensures NoTag(t)
  {
    hide Visible, Nibble;
    var d := Visible(t);
    forall i | 0 <= i < |d| ensures d[i] != LESS {
      NibbleNotLess(d[2 * (i / 2)], s[i / 2] / 16);
      NibbleNotLess(d[2 * (i / 2) + 1], s[i / 2] % 16);
      assert i == 2 * (i / 2) || i == 2 * (i / 2) + 1;
    }
    VisibleTag(t);
  }

  lemma NibbleNotLess(c: octet, v: nat)
    requires Nibble(c, v)
    ensures c != LESS
  {
    NibbleIs(c, v);
  }

  lemma {:induction false} VisibleTag(t: text)
    requires NoTag(Visible(t))
    ensures NoTag(t)
  {
    if t != [] {
      var d, e := Visible(t), Visible(t[1..]);
      forall i | 0 <= i < |e| ensures e[i] != LESS {
        assert e[i] == d[i + |d| - |e|];
      }
      VisibleTag(t[1..]);
      assert t == [t[0]] + t[1..];
      if t[0] !in BLANKS { assert d[0] == t[0]; }
    }
  }

  /** Text with references of any kind: what its pieces stand for, under any cutting. */
  lemma SegmentsDocument(name: text, segments: seq<Segment>, pieces: seq<text>)
    requires IsName(name) && pieces != []
    requires forall i :: 0 <= i < |segments| ==> WellSpelled(segments[i])
    requires Join(pieces) == Document(name, TextOf(segments))
    ensures Feed(Entities, name, Awaiting, Text, BitStr([], 0), [], pieces)
         == Finished(|Join(pieces)|, BitStr(OctetMeaning.OctetsOf(segments), 0))
  {
    hide Run, Feed, Join, Document, Expand, TextOf, WellSpelled;
    var t, s := TextOf(segments), OctetMeaning.OctetsOf(segments);
    SegmentsRead(segments, true);
    assert [] + s == s;
    DocumentRead(Entities, name, BitStr([], 0), t, BitStr(s, 0));
    TextClosed(name, t);
    CutDocument(Entities, name, BitStr([], 0), pieces);
  }

  lemma TextClosed(name: text, t: text)
    requires IsName(name) && NoTag(t)
    ensures NoStray(Document(name, t))
  {
    hide NoStray;
    ClosedTag(name);
    ClosedTag([SLASH] + name);
    ClosedConcat(t, ClosingTag(name)) by { PlainClosed(t); }
    ClosedConcat(OpeningTag(name), t + ClosingTag(name));
  }

  lemma PlainClosed(t: text)
    requires NoTag(t)
    ensures Closed(t)
  {
  }

  // ----- escaped strings -------------------------------------------------------------------

  predicate Plain(s: seq<octet>) {
    forall i :: 0 <= i < |s| ==> !IsControl(s[i])
  }

  /** The first control character from i on, or the end. */
  function PlainUntil(s: seq<octet>, i: nat): (n: nat)
    requires i <= |s|
    ensures i <= n <= |s| && (n < |s| ==> IsControl(s[n]))
    ensures forall k :: i <= k < n ==> !IsControl(s[k])
    decreases |s| - i
  {
    if i == |s| || IsControl(s[i]) then i else PlainUntil(s, i + 1)
  }

  /** A control character of the string is written as a tag that bears the element's own name. */
  predicate Clash(name: text, s: seq<octet>) {
    exists i :: 0 <= i < |s| && IsControl(s[i]) && TableEntry(s[i]) == EmptyTag(name)
  }

  function EmptyTag(name: text): text {
    [LESS] + name + [SLASH, GREATER]
  }

  lemma {:induction false} EscapeConcat(a: seq<octet>, b: seq<octet>)
    ensures Escape(a + b) == Escape(a) + Escape(b)
  {
    hide Escape, EscapeOctet;
    if a == [] {
      EscapeNothing();
      assert a + b == b && [] + Escape(b) == Escape(b);
    } else {
      EscapeFirst(a);
      EscapeFirst(a + b);
      EscapeConcat(a[1..], b);
      assert (a + b)[1..] == a[1..] + b;
      assert EscapeOctet(a[0]) + (Escape(a[1..]) + Escape(b)) == (EscapeOctet(a[0]) + Escape(a[1..])) + Escape(b);
    }
  }

  lemma EscapeFirst(s: seq<octet>)
    requires s != []
    ensures Escape(s) == EscapeOctet(s[0]) + Escape(s[1..])
  {
    hide EscapeOctet;
  }

  /** The three references are read back, whatever follows. */
  lemma ReferenceRead(c: octet, rest: text)
    requires c in {AMPERSAND, LESS, GREATER}
    ensures PieceOf(TableEntry(c) + rest) == Stored([c], |TableEntry(c)|)
  {
    var e := TableEntry(c);
    var w := e + rest;
    assert forall i :: 0 <= i < |e| ==> w[i] == e[i];
    var n := if |w| > 5 then 5 else |w|;
    if c == AMPERSAND {
      assert e == [0x26, 0x61, 0x6d, 0x70, 0x3b];
      assert w[1..4] == [0x61, 0x6d, 0x70];
      assert Semicolon(w, 4, n) == Semicolon(w, 3, n) == Semicolon(w, 2, n) == Some(4);
      assert Semicolon(w, 0, n) == Semicolon(w, 1, n) == Semicolon(w, 2, n);
    } else {
      assert w[1..3] == [e[1], e[2]];
      assert Semicolon(w, 1, n) == Some(3);
      assert Semicolon(w, 0, n) == Semicolon(w, 1, n);
    }
  }

  lemma OctetRead(c: octet, rest: text)
    requires !IsControl(c)
    ensures Expand(EscapeOctet(c) + rest, true) == Onto(Taken(|EscapeOctet(c)|, [c]), Expand(rest, true))
  {
    var w := EscapeOctet(c) + rest;
    if c in {AMPERSAND, LESS, GREATER} {
      ReferenceRead(c, rest);
    } else {
      assert EscapeOctet(c) == [c];
      assert PieceOf(w) == Verbatim(w);
    }
    assert w[|EscapeOctet(c)|..] == rest;
  }

  /** Text without control characters expands to what was escaped. */
  lemma {:induction false} ExpandEscape(s: seq<octet>)
    requires Plain(s)
    ensures Expand(Escape(s), true) == Some(Taken(|Escape(s)|, s))
  {
    hide EscapeOctet, PieceOf;
    if s != [] {
      OctetRead(s[0], Escape(s[1..]));
      ExpandEscape(s[1..]);
      assert [s[0]] + s[1..] == s;
    }
  }

  lemma {:induction false} EscapeHasNoTag(s: seq<octet>)
    requires Plain(s)
    ensures NoTag(Escape(s))
  {
    hide EscapeOctet;
    if s != [] {
      OctetHasNoTag(s[0]);
      EscapeHasNoTag(s[1..]);
    }
  }

  lemma OctetHasNoTag(c: octet)
    requires !IsControl(c)
    ensures NoTag(EscapeOctet(c))
  {
    if c == AMPERSAND {
      assert TableEntry(c) == [0x26, 0x61, 0x6d, 0x70, 0x3b];
    } else if c == LESS {
      assert TableEntry(c) == [0x26, 0x6c, 0x74, 0x3b];
    } else if c == GREATER {
      assert TableEntry(c) == [0x26, 0x67, 0x74, 0x3b];
    }
  }

  lemma ControlNames(c: octet)
    requires IsControl(c)
    ensures IsName(Ascii(NAMES[c])) && TableEntry(c) == EmptyTag(Ascii(NAMES[c]))
  {
    NamesAreLetters(c);
    var t := Ascii(NAMES[c]);
    forall i | 0 <= i < |t| ensures NameChar(t[i]) {
      assert t[i] == NAMES[c][i] as int;
    }
  }

  /** A control character's tag gives the character back, unless it is taken for the element's own. */
  lemma RunControl(name: text, st: BitStr, c: octet, rest: text)
    requires IsName(name) && IsControl(c)
    ensures Run(Entities, name, InBody, Text, st, TableEntry(c) + rest)
         == if TableEntry(c) == EmptyTag(name) then Failed
            else Advanced(|TableEntry(c)|, Run(Entities, name, InBody, Text, Append(st, [c]), rest))
  {
    hide Run, TableEntry, Ascii, CheckTag, ControlFrom, Step, NextToken;
    var tagName := Ascii(NAMES[c]);
    ControlNames(c);
    SameTag(tagName, name);
    var e := TableEntry(c);
    var body := tagName + [SLASH];
    assert e == [LESS] + body + [GREATER];
    assert body[0] == tagName[0];
    TagScanned(body, rest);
    assert (e + rest)[..|e|] == e && (e + rest)[|e|..] == rest;
    CheckEmpty(tagName, name);
    ControlIsFound(c, 0);
    StepTag(Entities, name, InBody, Text, st, e + rest);
  }

  lemma SameTag(a: text, b: text)
    ensures EmptyTag(a) == EmptyTag(b) <==> a == b
  {
    assert EmptyTag(a)[1..|EmptyTag(a)| - 2] == a && EmptyTag(b)[1..|EmptyTag(b)| - 2] == b;
  }

  /** Plain octets, then a tag. */
  lemma RunPlain(name: text, st: BitStr, p: seq<octet>, rest: text)
    requires Plain(p) && rest != [] && rest[0] == LESS
    ensures Run(Entities, name, InBody, Text, st, Escape(p) + rest)
         == Advanced(|Escape(p)|, Run(Entities, name, InBody, Text, Append(st, p), rest))
  {
    hide Run, Expand, Escape;
    ExpandEscape(p);
    EscapeHasNoTag(p);
    WholeText(Entities, name, st, Escape(p), rest);
  }

  /** Plain octets and a control character. */
  lemma RunPlainControl(name: text, st: BitStr, p: seq<octet>, c: octet, rest: text)
    requires IsName(name) && Plain(p) && IsControl(c)
    ensures Run(Entities, name, InBody, Text, st, Escape(p) + (TableEntry(c) + rest))
         == if TableEntry(c) == EmptyTag(name) then Failed
            else Advanced(|Escape(p)| + |TableEntry(c)|,
                          Run(Entities, name, InBody, Text, Append(st, p + [c]), rest))
  {
    hide Run, Escape, TableEntry;
    EscapeOne(c);
    RunPlain(name, st, p, TableEntry(c) + rest);
    RunControl(name, Append(st, p), c, rest);
    assert (st.buf + p) + [c] == st.buf + (p + [c]);
    AdvancedTwice(|Escape(p)|, |TableEntry(c)|, Run(Entities, name, InBody, Text, Append(st, p + [c]), rest));
  }

  lemma EscapeParts(p: seq<octet>, c: octet, r: seq<octet>, end: text)
    requires IsControl(c)
    ensures Escape(p + [c] + r) == Escape(p) + TableEntry(c) + Escape(r)
    ensures Escape(p + [c] + r) + end == Escape(p) + (TableEntry(c) + (Escape(r) + end))
  {
    hide Escape, TableEntry;
    EscapeOne(c);
    EscapeConcat(p + [c], r);
    EscapeConcat(p, [c]);
  }

  /** The escaped string and the closing tag. */
  lemma {:induction false} RunEscaped(name: text, st: BitStr, s: seq<octet>)
    requires IsName(name)
    ensures Run(Entities, name, InBody, Text, st, Escape(s) + ClosingTag(name))
         == if Clash(name, s) then Failed
            else Finished(|Escape(s)| + |ClosingTag(name)|, Append(st, s))
    decreases |s|
  {
    hide Run, Escape, TableEntry, ClosingTag;
    var k := PlainUntil(s, 0);
    var p := s[..k];
    if k == |s| {
      assert p == s;
      ClosingStarts(name);
      RunPlain(name, st, s, ClosingTag(name));
      RunClosing(Entities, name, Append(st, s));
    } else {
      var c, r := s[k], s[k + 1..];
      assert s == p + [c] + r;
      EscapeParts(p, c, r, ClosingTag(name));
      RunPlainControl(name, st, p, c, Escape(r) + ClosingTag(name));
      RunEscaped(name, Append(st, p + [c]), r);
      ClashSplit(name, s, k);
      assert st.buf + (p + [c]) + r == st.buf + s;
    }
  }

  lemma ClosingStarts(name: text)
    ensures ClosingTag(name) != [] && ClosingTag(name)[0] == LESS
  {
  }

  lemma EscapeOne(c: octet)
    requires IsControl(c)
    ensures Escape([c]) == TableEntry(c) && TableEntry(c) != [] && TableEntry(c)[0] == LESS
  {
    assert [c][1..] == [];
  }

  lemma ClashSplit(name: text, s: seq<octet>, k: nat)
    requires k < |s| && Plain(s[..k]) && IsControl(s[k])
    ensures Clash(name, s) <==> TableEntry(s[k]) == EmptyTag(name) || Clash(name, s[k + 1..])
  {
    hide TableEntry;
    assert forall i :: 0 <= i < k ==> s[i] == s[..k][i];
    if Clash(name, s[k + 1..]) {
      var i :| 0 <= i < |s[k + 1..]| && IsControl(s[k + 1..][i]) && TableEntry(s[k + 1..][i]) == EmptyTag(name);
      assert s[k + 1..][i] == s[k + 1 + i];
    }
    if Clash(name, s) && TableEntry(s[k]) != EmptyTag(name) {
      var i :| 0 <= i < |s| && IsControl(s[i]) && TableEntry(s[i]) == EmptyTag(name);
      assert i > k && s[k + 1..][i - k - 1] == s[i];
    }
  }

  // ----- no stray ampersands in what is printed ----------------------------------------------

  /** Text that does not end in `<`, so that nothing put after it makes a stray `<&`. */
  predicate Closed(t: text) {
    NoStray(t) && (t != [] ==> t[|t| - 1] != LESS)
  }

  lemma ClosedConcat(a: text, b: text)
    requires Closed(a) && Closed(b)
    ensures Closed(a + b)
  {
  }

  lemma ClosedTag(body: text)
    requires body != [] && body[0] != AMPERSAND && (forall i :: 0 <= i < |body| ==> TagChar(body[i]))
    ensures Closed([LESS] + body + [GREATER])
  {
    var t := [LESS] + body + [GREATER];
    forall i | 0 < i < |t| - 1 ensures t[i] != LESS {
      assert t[i] == body[i - 1];
    }
  }

  lemma OctetClosed(c: octet)
    ensures Closed(EscapeOctet(c))
  {
    hide Ascii;
    if IsControl(c) {
      ControlNames(c);
      var body := Ascii(NAMES[c]) + [SLASH];
      assert TableEntry(c) == [LESS] + body + [GREATER];
      ClosedTag(body);
    } else {
      OctetHasNoTag(c);
    }
  }

  lemma {:induction false} EscapeClosed(s: seq<octet>)
    ensures Closed(Escape(s))
  {
    hide EscapeOctet, Closed;
    ClosedNothing();
    if s != [] {
      OctetClosed(s[0]);
      EscapeClosed(s[1..]);
      ClosedConcat(EscapeOctet(s[0]), Escape(s[1..]));
    }
  }

  lemma ClosedNothing()
    ensures Closed([])
  {
  }

  lemma DocumentClosed(name: text, s: seq<octet>)
    requires IsName(name)
    ensures NoStray(Document(name, Escape(s)))
  {
    hide Escape, NoStray;
    ClosedTag(name);
    ClosedTag([SLASH] + name);
    EscapeClosed(s);
    ClosedConcat(Escape(s), ClosingTag(name));
    ClosedConcat(OpeningTag(name), Escape(s) + ClosingTag(name));
  }

  /**
    UTF-8 strings: every byte string survives, under any cutting, exactly when none
    of its control characters is named like the element.
   */
  lemma EscapedDocument(name: text, s: seq<octet>, pieces: seq<text>)
    requires IsName(name) && pieces != []
    requires Join(pieces) == Document(name, Escape(s))
    ensures Feed(Entities, name, Awaiting, Text, BitStr([], 0), [], pieces)
         == if Clash(name, s) then Failed else Finished(|Join(pieces)|, BitStr(s, 0))
  {
    hide Run, Feed, Escape, Join;
    DocumentClosed(name, s);
    CutDocument(Entities, name, BitStr([], 0), pieces);
    RunOpening(Entities, name, BitStr([], 0), Escape(s) + ClosingTag(name));
    RunEscaped(name, BitStr([], 0), s);
    assert [] + s == s;
  }

  const LT: text := [0x6c, 0x74, SEMICOLON]

  lemma ReferenceReread(name: text, st: BitStr)
    requires IsName(name)
    ensures Run(Entities, name, InBody, Text, st, ([AMPERSAND] + LT) + ClosingTag(name))
         == Finished(4 + |ClosingTag(name)|, Append(st, [LESS]))
  {
    hide Run, ClosingTag;
    assert Escape([LESS]) == [AMPERSAND] + LT by {
      assert [LESS][1..] == [] && TableEntry(LESS) == [AMPERSAND] + LT;
    }
    ClosingStarts(name);
    RunPlain(name, st, [LESS], ClosingTag(name));
    RunClosing(Entities, name, Append(st, [LESS]));
  }

  lemma StrayFront(rest: text)
    ensures NextToken(Text, [LESS, AMPERSAND] + rest) == Some(Token(TextChunk, 2, Text))
  {
    var doc := [LESS, AMPERSAND] + rest;
    assert Scan(TagStart, doc, 1) == Some(Token(TextChunk, 2, Text));
  }

  /** For instance: `<&` in front of the rest of a reference is kept in one call, and a `<` when cut there. */
  lemma StrayAmpersand(name: text, st: BitStr)
    requires IsName(name)
    ensures var cut, rest := [LESS, AMPERSAND], LT + ClosingTag(name);
            && Run(Entities, name, InBody, Text, st, cut + rest)
               == Finished(5 + |ClosingTag(name)|, Append(st, cut + LT))
            && Feed(Entities, name, InBody, Text, st, [], [cut, rest])
               == Finished(5 + |ClosingTag(name)|, Append(st, [LESS, LESS]))
  {
    hide Run, NextToken, Feed;
    var cut, rest, v := [LESS, AMPERSAND], LT + ClosingTag(name), Append(st, [LESS]);
    assert cut + [] == cut;
    StrayFront([]);
    StrayFront(rest);
    StrayWaits(name, Text, st);
    StrayKept(name, Text, st, rest);
    KeptFinishes(name, Append(v, [AMPERSAND]));
    FeedTwo(Entities, name, InBody, Text, st, cut, rest);
    assert cut[1..] + rest == ([AMPERSAND] + LT) + ClosingTag(name);
    ReferenceReread(name, v);
    assert v.buf + [LESS] == st.buf + [LESS, LESS];
    assert ((st.buf + [LESS]) + [AMPERSAND]) + LT == st.buf + (cut + LT);
  }

  lemma KeptFinishes(name: text, st: BitStr)
    requires IsName(name)
    ensures Run(Entities, name, InBody, Text, st, LT + ClosingTag(name))
         == Finished(3 + |ClosingTag(name)|, Append(st, LT))
  {
    hide Run, ClosingTag;
    PlainExpand(LT);
    ClosingStarts(name);
    WholeText(Entities, name, st, LT, ClosingTag(name));
    RunClosing(Entities, name, Append(st, LT));
  }

  lemma {:induction false} PlainExpand(t: text)
    requires forall i :: 0 <= i < |t| ==> t[i] != AMPERSAND
    ensures Expand(t, true) == Some(Taken(|t|, t))
  {
    if t != [] {
      LiteralRead(t, true);
      PlainExpand(t[1..]);
      assert [t[0]] + t[1..] == t;
    }
  }
}
