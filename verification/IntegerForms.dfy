/**
  What text the INTEGER body parser takes, and for what: a declarative grammar that
  does not mention the parser's states, and the proof that the parser accepts exactly it.
 */
module IntegerForms {
  import opened Octets
  import opened Decimal
  import opened Integer
  import opened EnumMap
  import opened Strtox
  import opened IntegerXer

  const WHITE: seq<octet> := [0x20, 0x09, 0x0a, 0x0d]

  predicate White(t: text) {
    forall i :: 0 <= i < |t| ==> t[i] in WHITE
  }

  /** Digits in pairs, of either case, a colon between one pair and the next. */
  predicate Paired(t: text, s: seq<octet>) {
    && s != [] && |t| == 3 * |s| - 1
    && forall k :: 0 <= k < |s| ==>
         && Nibble(t[3 * k], s[k] / 16) && Nibble(t[3 * k + 1], s[k] % 16)
         && (k + 1 < |s| ==> t[3 * k + 2] == ':' as int)
  }

  /** What makes pairs no number: a colon, or a digit above nine. */
  predicate Hexadecimal(t: text) {
    exists i :: 0 <= i < |t| && Marks(t[i])
  }

  predicate Marks(c: octet) {
    c == ':' as int || exists v :: 10 <= v < 16 && Nibble(c, v)
  }

  /** The ways to write an INTEGER, blanks around it apart. */
  datatype Form =
    | Blank
    | Number(lead: text, sign: text, digits: text, trail: text)
    | Pairs(lead: text, body: text, octets: seq<octet>, trail: text)
    | Tag(lead: text, rest: text, entry: Entry)

  predicate IsSign(sign: text) {
    sign == [] || sign == ['-' as int] || sign == ['+' as int]
  }

  /** The digits 0 to 9. */
  predicate Decimals(t: text) {
    forall i :: 0 <= i < |t| ==> '0' as int <= t[i] <= '9' as int
  }

  ghost predicate Spells(specs: Option<Specs>, f: Form, chunk: text) {
    match f
    case Blank => White(chunk)
    case Number(lead, sign, digits, trail) =>
      && White(lead) && White(trail) && IsSign(sign)
      && digits != [] && Decimals(digits) && chunk == lead + sign + digits + trail
    case Pairs(lead, body, octets, trail) =>
      && White(lead) && White(trail) && Paired(body, octets) && Hexadecimal(body)
      && chunk == lead + body + trail
    case Tag(lead, rest, entry) =>
      White(lead) && chunk == lead + ['<' as int] + rest && TagEntry(specs, chunk) == Some(entry)
  }

  function NumberValue(sign: text, digits: text): int
    requires Decimals(digits)
  {
    if sign == ['-' as int] then -NumVal(digits) else NumVal(digits)
  }

  /** The parser overflows: a negative number goes on after ten times more would leave the range. */
  ghost predicate Overflows(sign: text, digits: text)
    requires Decimals(digits)
  {
    sign == ['-' as int] && exists j :: 0 <= j < |digits| && -IMAX_MIN - 8 <= NumVal(digits[..j]) <= -IMAX_MIN
  }

  /** What each form stands for. */
  ghost function Meaning(f: Form): Outcome
    requires f.Number? ==> Decimals(f.digits)
  {
    match f
    case Blank => NotBodyIgnore
    case Number(_, sign, digits, _) =>
      if Overflows(sign, digits) then UndefinedOverflow
      else if FitsImax(NumberValue(sign, digits)) then Consumed(Der(NumberValue(sign, digits)))
      else DecoderLimit
    case Pairs(_, _, octets, _) => Consumed(octets)
    case Tag(_, _, entry) => Consumed(Der(entry.value))
  }

  // ----- every form is read -------------------------------------------------------------

  lemma WhiteIs(c: octet)
    ensures c in WHITE <==> IsSpace(c)
  {
  }

  lemma MarksIs(c: octet)
    ensures Marks(c) <==> c == COLON || IsHexLetter(c)
  {
    if IsHexLetter(c) { NibbleIs(c, DigitValue(c).value); }
    if v: nat :| 10 <= v < 16 && Nibble(c, v) { NibbleIs(c, v); }
  }

  /** States in which blanks are passed over. */
  predicate SkipsWhite(s: State) {
    s.LeadSpace? || s.SkipSpHex? || s.DigitsTrailSpace? || s.HexTrailSpace?
  }

  lemma {:induction false} ScanWhite(specs: Option<Specs>, chunk: text, lp: nat, n: nat, m: Vars, out: seq<octet>)
    requires lp + n <= |chunk| && White(chunk[lp..lp + n]) && SkipsWhite(m.state)
    ensures Scan(specs, chunk, lp, m, out) == Scan(specs, chunk, lp + n, m, out)
    decreases n
  {
    if n > 0 {
      var t := chunk[lp..lp + n];
      assert t[0] == chunk[lp];
      WhiteIs(chunk[lp]);
      assert chunk[lp + 1..lp + n] == t[1..];
      ScanWhite(specs, chunk, lp + 1, n - 1, m, out);
    }
  }

  lemma {:induction false} ScanRun(specs: Option<Specs>, chunk: text, lp: nat, n: nat, m: Vars)
    requires lp + n <= |chunk| && AllDigits(chunk[lp..lp + n]) && m.state.DecDigits?
    ensures Scan(specs, chunk, lp, m, []) == Scan(specs, chunk, lp + n, m, [])
    decreases n
  {
    if n > 0 {
      var t := chunk[lp..lp + n];
      assert t[0] == chunk[lp];
      assert chunk[lp + 1..lp + n] == t[1..];
      ScanRun(specs, chunk, lp + 1, n - 1, m);
    }
  }

  /** The text of a number, its parser's digits and sign. */
  lemma DecimalText(sign: text, digits: text)
    requires IsSign(sign) && digits != [] && AllDigits(digits)
    ensures DecimalOutcome(sign + digits) == Meaning(Number([], sign, digits, []))
  {
    hide NumVal, Der;
    var t := sign + digits;
    assert t[|sign|..] == digits && t[0] == (if sign == [] then digits[0] else sign[0]);
    assert SignLength(t) == |sign| && Negative(t) == (sign == [MINUS]);
    assert digits[..|digits|] == digits;
    DigitRunIs(digits, |digits|);
    assert Digits(t) == digits;
  }

  lemma ScanEnds(specs: Option<Specs>, chunk: text, m: Vars, out: seq<octet>)
    ensures Scan(specs, chunk, |chunk|, m, out) == Some((m, out))
  {
  }

  /** A sign or not, then the first digit. */
  lemma NumberStarts(specs: Option<Specs>, chunk: text, lp: nat, n: nat)
    requires n <= 1 && lp + n < |chunk| && IsDigit(chunk[lp + n])
    requires n == 1 ==> chunk[lp] == MINUS || chunk[lp] == PLUS
    ensures Scan(specs, chunk, lp, INITIAL, []) == Scan(specs, chunk, lp + n + 1, Vars(DecDigits, lp, 0, 0, 0), [])
  {
    if n == 1 {
      assert Char(specs, chunk, lp, INITIAL) == Continue(Vars(WaitDigits, lp, 0, 0, 0));
      assert Char(specs, chunk, lp + 1, Vars(WaitDigits, lp, 0, 0, 0)) == Continue(Vars(DecDigits, lp, 0, 0, 0));
    }
  }

  lemma NumberEnds(specs: Option<Specs>, chunk: text, lp: nat, m: Vars)
    requires lp < |chunk| && chunk[lp] in WHITE && m.state.DecDigits?
    ensures Scan(specs, chunk, lp, m, [])
         == Scan(specs, chunk, lp + 1, m.(end := lp, state := DigitsTrailSpace), [])
  {
    WhiteIs(chunk[lp]);
  }

  /** A number standing from l to end, n of its characters a sign. */
  lemma NumberAt(specs: Option<Specs>, chunk: text, l: nat, n: nat, end: nat)
    requires n <= 1 && l + n < end <= |chunk|
    requires White(chunk[..l]) && AllDigits(chunk[l + n..end]) && White(chunk[end..])
    requires n == 1 ==> chunk[l] == MINUS || chunk[l] == PLUS
    ensures BodyOutcome(specs, chunk) == DecimalOutcome(chunk[l..end])
  {
    hide Scan, DecimalOutcome, Char;
    assert chunk[0..l] == chunk[..l];
    ScanWhite(specs, chunk, 0, l, INITIAL, []);
    var m := Vars(DecDigits, l, 0, 0, 0);
    var digits := chunk[l + n..end];
    assert digits[0] == chunk[l + n];
    NumberStarts(specs, chunk, l, n);
    assert chunk[l + n + 1..end] == digits[1..];
    ScanRun(specs, chunk, l + n + 1, |digits| - 1, m);
    if end == |chunk| {
      ScanEnds(specs, chunk, m, []);
      assert chunk[l..] == chunk[l..end];
    } else {
      var m' := m.(end := end, state := DigitsTrailSpace);
      assert chunk[end..][0] == chunk[end];
      NumberEnds(specs, chunk, end, m);
      assert chunk[end + 1..|chunk|] == chunk[end..][1..];
      ScanWhite(specs, chunk, end + 1, |chunk| - end - 1, m', []);
      ScanEnds(specs, chunk, m', []);
    }
  }

  lemma NumberRead(specs: Option<Specs>, lead: text, sign: text, digits: text, trail: text)
    requires Spells(specs, Number(lead, sign, digits, trail), lead + sign + digits + trail)
    ensures BodyOutcome(specs, lead + sign + digits + trail) == Meaning(Number(lead, sign, digits, trail))
  {
    hide BodyOutcome, DecimalOutcome, Der, NumVal;
    var chunk := lead + sign + digits + trail;
    var l, p, end := |lead|, |lead| + |sign|, |lead| + |sign| + |digits|;
    assert chunk[..l] == lead && chunk[p..end] == digits && chunk[end..] == trail && chunk[l..end] == sign + digits;
    NumberAt(specs, chunk, l, |sign|, end);
    DecimalText(sign, digits);
  }

  // ----- pairs of digits ---------------------------------------------------------------------

  lemma NibbleChar(c: octet, v: nat)
    requires Nibble(c, v)
    ensures DigitValue(c) == Some(v) && (IsDigit(c) || IsHexLetter(c))
    ensures !IsSpace(c) && c != MINUS && c != PLUS && c != LESS && c != COLON
  {
    NibbleIs(c, v);
  }

  lemma HalfTaken(specs: Option<Specs>, chunk: text, lp: nat, m: Vars, v: nat)
    requires lp < |chunk| && Nibble(chunk[lp], v)
    ensures m.state.SkipSpHex? || m.state.HexDigit1? || (m.state.LeadSpace? && !IsDigit(chunk[lp])) ==>
              Char(specs, chunk, lp, m) == Continue(m.(hex := v * 16, state := HexDigit2))
    ensures m.state.HexDigit2? ==> Char(specs, chunk, lp, m) == Emit(m.(state := HexColon), (m.hex + v) % 256)
  {
    NibbleChar(chunk[lp], v);
    hide Nibble, DigitValue;
  }

  /** Two digits store the octet they spell, from any state that awaits the first. */
  lemma ScanPair(specs: Option<Specs>, chunk: text, lp: nat, m: Vars, out: seq<octet>, o: octet)
    requires lp + 2 <= |chunk| && Nibble(chunk[lp], o / 16) && Nibble(chunk[lp + 1], o % 16)
    requires m.state.SkipSpHex? || m.state.HexDigit1? || (m.state.LeadSpace? && !IsDigit(chunk[lp]))
    ensures Scan(specs, chunk, lp, m, out)
         == Scan(specs, chunk, lp + 2, m.(state := HexColon, hex := o / 16 * 16), out + [o])
  {
    hide Nibble, Char;
    var m1 := m.(hex := o / 16 * 16, state := HexDigit2);
    HalfTaken(specs, chunk, lp, m, o / 16);
    HalfTaken(specs, chunk, lp + 1, m1, o % 16);
    assert (o / 16 * 16 + o % 16) % 256 == o;
    assert Scan(specs, chunk, lp + 1, m1, out) == Scan(specs, chunk, lp + 2, m1.(state := HexColon), out + [o]);
  }

  predicate PairedAt(chunk: text, l: nat, s: seq<octet>) {
    s != [] && l + 3 * |s| - 1 <= |chunk| && Paired(chunk[l..l + 3 * |s| - 1], s)
  }

  lemma ScanColon(specs: Option<Specs>, chunk: text, lp: nat, m: Vars, out: seq<octet>)
    requires lp < |chunk| && chunk[lp] == COLON && m.state.HexColon?
    ensures Scan(specs, chunk, lp, m, out) == Scan(specs, chunk, lp + 1, m.(state := HexDigit1), out)
  {
  }

  /** The pairs from the k-th on, those before it stored. */
  lemma {:induction false} ScanPairs(specs: Option<Specs>, chunk: text, l: nat, s: seq<octet>, k: nat, m: Vars)
    returns (m': Vars)
    requires k < |s| && PairedAt(chunk, l, s)
    requires m.state.SkipSpHex? || m.state.HexDigit1? || (m.state.LeadSpace? && !IsDigit(chunk[l + 3 * k]))
    ensures m'.state.HexColon?
    ensures Scan(specs, chunk, l + 3 * k, m, s[..k]) == Scan(specs, chunk, l + 3 * |s| - 1, m', s)
    decreases |s| - k
  {
    hide Scan, Nibble;
    var t := chunk[l..l + 3 * |s| - 1];
    assert t[3 * k] == chunk[l + 3 * k] && t[3 * k + 1] == chunk[l + 3 * k + 1];
    ScanPair(specs, chunk, l + 3 * k, m, s[..k], s[k]);
    m' := m.(state := HexColon, hex := s[k] / 16 * 16);
    assert s[..k + 1] == s[..k] + [s[k]];
    if k + 1 < |s| {
      assert t[3 * k + 2] == chunk[l + 3 * k + 2];
      ScanColon(specs, chunk, l + 3 * k + 2, m', s[..k + 1]);
      m' := ScanPairs(specs, chunk, l, s, k + 1, m'.(state := HexDigit1));
    } else {
      assert s[..k + 1] == s;
    }
  }

  /** Pairs that start with a decimal digit are taken for a number first, and read again from the start. */
  lemma Restarts(specs: Option<Specs>, chunk: text, l: nat, s: seq<octet>)
    requires PairedAt(chunk, l, s)
    requires Hexadecimal(chunk[l..l + 3 * |s| - 1]) && IsDigit(chunk[l])
    ensures Scan(specs, chunk, l, INITIAL, []) == Scan(specs, chunk, 0, INITIAL.(state := SkipSpHex), [])
  {
    hide Nibble, Marks;
    var t := chunk[l..l + 3 * |s| - 1];
    assert t[3 * 0] == chunk[l] && t[3 * 0 + 1] == chunk[l + 1];
    var v := s[0] % 16;
    NibbleIs(chunk[l + 1], v);
    var m := INITIAL.(state := DecDigits, start := l);
    var again := INITIAL.(state := SkipSpHex);
    assert Char(specs, chunk, l, INITIAL) == Continue(m);
    if !IsDigit(chunk[l + 1]) {
      assert Char(specs, chunk, l + 1, m) == Rewind(again);
    } else {
      assert Char(specs, chunk, l + 1, m) == Continue(m);
      if |s| == 1 {
        var i :| 0 <= i < |t| && Marks(t[i]);
        MarksIs(t[i]);
        assert false;
      }
      assert t[3 * 0 + 2] == chunk[l + 2];
      assert Char(specs, chunk, l + 2, m) == Rewind(again);
      assert Scan(specs, chunk, l + 2, m, []) == Scan(specs, chunk, 0, again, []);
      assert Scan(specs, chunk, l + 1, m, []) == Scan(specs, chunk, l + 2, m, []);
    }
  }

  lemma PairsAt(specs: Option<Specs>, chunk: text, l: nat, s: seq<octet>)
    requires PairedAt(chunk, l, s)
    requires Hexadecimal(chunk[l..l + 3 * |s| - 1])
    requires White(chunk[..l]) && White(chunk[l + 3 * |s| - 1..])
    ensures BodyOutcome(specs, chunk) == Consumed(s)
  {
    hide Scan, Paired, Hexadecimal;
    var end := l + 3 * |s| - 1;
    assert chunk[0..l] == chunk[..l];
    ScanWhite(specs, chunk, 0, l, INITIAL, []);
    var m := INITIAL;
    if IsDigit(chunk[l]) {
      Restarts(specs, chunk, l, s);
      m := INITIAL.(state := SkipSpHex);
      ScanWhite(specs, chunk, 0, l, m, []);
    }
    assert s[..0] == [];
    var m' := ScanPairs(specs, chunk, l, s, 0, m);
    PairsEnd(specs, chunk, end, m', s);
  }

  /** After the last digit only blanks may follow. */
  lemma PairsEnd(specs: Option<Specs>, chunk: text, end: nat, m: Vars, s: seq<octet>)
    requires end <= |chunk| && White(chunk[end..]) && m.state.HexColon?
    ensures Scan(specs, chunk, end, m, s) == Some((if end == |chunk| then m else m.(state := HexTrailSpace), s))
  {
    if end < |chunk| {
      assert chunk[end..][0] == chunk[end];
      WhiteIs(chunk[end]);
      assert chunk[end + 1..|chunk|] == chunk[end..][1..];
      ScanWhite(specs, chunk, end + 1, |chunk| - end - 1, m.(state := HexTrailSpace), s);
    }
  }

  lemma PairsRead(specs: Option<Specs>, lead: text, body: text, s: seq<octet>, trail: text)
    requires Spells(specs, Pairs(lead, body, s, trail), lead + body + trail)
    ensures BodyOutcome(specs, lead + body + trail) == Consumed(s)
  {
    hide BodyOutcome, Hexadecimal;
    var chunk := lead + body + trail;
    var l, end := |lead|, |lead| + |body|;
    assert chunk[..l] == lead && chunk[l..end] == body && chunk[end..] == trail;
    PairsAt(specs, chunk, l, s);
  }

  // ----- tags and nothing ----------------------------------------------------------------------

  lemma BlankRead(specs: Option<Specs>, chunk: text)
    requires White(chunk)
    ensures BodyOutcome(specs, chunk) == NotBodyIgnore
  {
    assert chunk[0..|chunk|] == chunk;
    ScanWhite(specs, chunk, 0, |chunk|, INITIAL, []);
  }

  lemma TagRead(specs: Option<Specs>, lead: text, rest: text, entry: Entry)
    requires Spells(specs, Tag(lead, rest, entry), lead + [LESS] + rest)
    ensures BodyOutcome(specs, lead + [LESS] + rest) == Consumed(Der(entry.value))
  {
    hide TagEntry;
    var chunk := lead + [LESS] + rest;
    assert chunk[0..|lead|] == lead;
    ScanWhite(specs, chunk, 0, |lead|, INITIAL, []);
  }

  /** Every form is read as what it stands for. */
  lemma FormRead(specs: Option<Specs>, f: Form, chunk: text)
    requires Spells(specs, f, chunk)
    ensures BodyOutcome(specs, chunk) == Meaning(f)
  {
    hide BodyOutcome;
    match f
    case Blank => BlankRead(specs, chunk);
    case Number(lead, sign, digits, trail) => NumberRead(specs, lead, sign, digits, trail);
    case Pairs(lead, body, octets, trail) => PairsRead(specs, lead, body, octets, trail);
    case Tag(lead, rest, entry) => TagRead(specs, lead, rest, entry);
  }

  // ----- nothing else is read --------------------------------------------------------------------

  /** How many blanks a text starts with. */
  function Lead(t: text): (n: nat)
    ensures n <= |t| && White(t[..n])
    ensures n < |t| ==> t[n] !in WHITE
  {
    if t == [] || t[0] !in WHITE then 0
    else
      assert t[..1 + Lead(t[1..])] == [t[0]] + t[1..][..Lead(t[1..])];
      1 + Lead(t[1..])
  }

  /** The pairs stored so far, n colons between and after them. */
  predicate PairsSoFar(chunk: text, l: nat, out: seq<octet>, n: nat) {
    && l + 2 * |out| + n <= |chunk| && n <= |out| <= n + 1
    && (forall k :: 0 <= k < |out| ==> Nibble(chunk[l + 3 * k], out[k] / 16) && Nibble(chunk[l + 3 * k + 1], out[k] % 16))
    && (forall k :: 0 <= k < n ==> chunk[l + 3 * k + 2] == COLON)
  }

  /** What has been read when the parser is in a state: the text before lp has the form that state is about. */
  ghost predicate Shape(chunk: text, lp: nat, m: Vars, out: seq<octet>) {
    var l := Lead(chunk);
    lp <= |chunk| &&
    match m.state
    case LeadSpace => lp <= l && out == []
    case WaitDigits => out == [] && m.start == l && lp == l + 1 && (chunk[l] == MINUS || chunk[l] == PLUS)
    case DecDigits => out == [] && m.start == l && NumeralAt(chunk, l, lp)
    case DigitsTrailSpace => out == [] && m.start == l && m.end <= lp && NumeralAt(chunk, l, m.end) && White(chunk[m.end..lp])
    case SkipSpHex => lp <= l && out == [] && Hexadecimal(chunk)
    case HexDigit1 => Hexadecimal(chunk) && out != [] && lp == l + 3 * |out| && PairsSoFar(chunk, l, out, |out|)
    case HexDigit2 =>
      && Hexadecimal(chunk) && lp == l + 3 * |out| + 1 && PairsSoFar(chunk, l, out, |out|)
      && m.hex % 16 == 0 && Nibble(chunk[lp - 1], m.hex / 16)
    case HexColon => Hexadecimal(chunk) && out != [] && lp == l + 3 * |out| - 1 && PairsSoFar(chunk, l, out, |out| - 1)
    case HexTrailSpace =>
      && Hexadecimal(chunk) && out != [] && l + 3 * |out| - 1 <= lp
      && PairsSoFar(chunk, l, out, |out| - 1) && White(chunk[l + 3 * |out| - 1..lp])
    case EndEnum => false
    case Unexpected => false
  }

  /** A sign or none, and digits, from l to end. */
  predicate NumeralAt(chunk: text, l: nat, end: nat) {
    l < end <= |chunk| &&
    var n := if chunk[l] == MINUS || chunk[l] == PLUS then 1 else 0;
    l + n < end && AllDigits(chunk[l + n..end])
  }

  /** A step leaves the form of its new state. */
  ghost predicate Followed(chunk: text, lp: nat, out: seq<octet>, s: IntegerXer.Step) {
    && (s.Continue? ==> Shape(chunk, lp + 1, s.vars, out))
    && (s.Emit? ==> Shape(chunk, lp + 1, s.vars, out + [s.o]))
    && (s.Rewind? ==> Shape(chunk, 0, s.vars, out))
  }

  lemma ShapeKept(specs: Option<Specs>, chunk: text, lp: nat, m: Vars, out: seq<octet>)
    requires lp < |chunk| && Shape(chunk, lp, m, out)
    ensures Followed(chunk, lp, out, Char(specs, chunk, lp, m))
    ensures Char(specs, chunk, lp, m).TakeTag? ==>
              && lp == Lead(chunk) && chunk[lp] == LESS && TagEntry(specs, chunk).Some?
              && Char(specs, chunk, lp, m).vars == m.(dec := TagEntry(specs, chunk).value.value, state := EndEnum)
  {
    hide TagEntry, Char, Shape, Marks, Lead;
    var c := chunk[lp];
    WhiteIs(c);
    if IsSpace(c) {
      KeptByWhite(specs, chunk, lp, m, out);
    } else if IsDigit(c) || IsHexLetter(c) {
      KeptByDigit(specs, chunk, lp, m, out);
    } else {
      KeptByMark(specs, chunk, lp, m, out);
    }
  }

  lemma MoreWhite(chunk: text, e: nat, lp: nat)
    requires e <= lp < |chunk| && White(chunk[e..lp]) && chunk[lp] in WHITE
    ensures White(chunk[e..lp + 1])
  {
    assert chunk[e..lp + 1] == chunk[e..lp] + [chunk[lp]];
  }

  lemma MoreDigits(chunk: text, e: nat, lp: nat)
    requires e <= lp < |chunk| && AllDigits(chunk[e..lp]) && IsDigit(chunk[lp])
    ensures AllDigits(chunk[e..lp + 1])
  {
    assert chunk[e..lp + 1] == chunk[e..lp] + [chunk[lp]];
  }

  lemma KeptByWhite(specs: Option<Specs>, chunk: text, lp: nat, m: Vars, out: seq<octet>)
    requires lp < |chunk| && Shape(chunk, lp, m, out) && IsSpace(chunk[lp])
    ensures Followed(chunk, lp, out, Char(specs, chunk, lp, m)) && !Char(specs, chunk, lp, m).TakeTag?
  {
    hide Nibble, Marks, Lead, White;
    WhiteIs(chunk[lp]);
    match m.state
    case DecDigits => NoneWhite(chunk, lp); MoreWhite(chunk, lp, lp);
    case DigitsTrailSpace => MoreWhite(chunk, m.end, lp);
    case HexColon => NoneWhite(chunk, lp); MoreWhite(chunk, lp, lp);
    case HexTrailSpace => MoreWhite(chunk, Lead(chunk) + 3 * |out| - 1, lp);
    case _ =>
  }

  lemma NoneWhite(chunk: text, lp: nat)
    requires lp <= |chunk|
    ensures White(chunk[lp..lp])
  {
  }

  lemma KeptByMark(specs: Option<Specs>, chunk: text, lp: nat, m: Vars, out: seq<octet>)
    requires lp < |chunk| && Shape(chunk, lp, m, out)
    requires !IsSpace(chunk[lp]) && !IsDigit(chunk[lp]) && !IsHexLetter(chunk[lp])
    ensures Followed(chunk, lp, out, Char(specs, chunk, lp, m))
    ensures Char(specs, chunk, lp, m).TakeTag? ==>
              && lp == Lead(chunk) && chunk[lp] == LESS && TagEntry(specs, chunk).Some?
              && Char(specs, chunk, lp, m).vars == m.(dec := TagEntry(specs, chunk).value.value, state := EndEnum)
  {
    hide Nibble, Lead, White, TagEntry, DigitValue;
    WhiteIs(chunk[lp]);
    MarksIs(chunk[lp]);
    if lp < Lead(chunk) { AtLead(chunk, lp); }
    hide Marks;
  }

  lemma AtLead(chunk: text, lp: nat)
    requires lp < Lead(chunk)
    ensures chunk[lp] in WHITE
  {
    hide Lead;
    assert chunk[lp] == chunk[..Lead(chunk)][lp];
  }

  lemma KeptByDigit(specs: Option<Specs>, chunk: text, lp: nat, m: Vars, out: seq<octet>)
    requires lp < |chunk| && Shape(chunk, lp, m, out)
    requires IsDigit(chunk[lp]) || IsHexLetter(chunk[lp])
    ensures Followed(chunk, lp, out, Char(specs, chunk, lp, m)) && !Char(specs, chunk, lp, m).TakeTag?
  {
    hide Char, Shape, Lead, Nibble, White, DigitValue;
    DigitNotWhite(chunk[lp]);
    if lp < Lead(chunk) { AtLead(chunk, lp); }
    if IsDigit(chunk[lp]) && (m.state.LeadSpace? || m.state.WaitDigits? || m.state.DecDigits?) {
      KeptInNumber(specs, chunk, lp, m, out);
    } else {
      KeptInPairs(specs, chunk, lp, m, out);
    }
  }

  lemma KeptInNumber(specs: Option<Specs>, chunk: text, lp: nat, m: Vars, out: seq<octet>)
    requires Lead(chunk) <= lp < |chunk| && Shape(chunk, lp, m, out) && IsDigit(chunk[lp])
    requires m.state.LeadSpace? || m.state.WaitDigits? || m.state.DecDigits?
    ensures Followed(chunk, lp, out, Char(specs, chunk, lp, m)) && !Char(specs, chunk, lp, m).TakeTag?
  {
    hide Lead, Nibble, White, TagEntry, DigitValue, AllDigits, Hexadecimal, PairsSoFar;
    var l := Lead(chunk);
    if m.state.DecDigits? {
      MoreDigits(chunk, if chunk[l] == MINUS || chunk[l] == PLUS then l + 1 else l, lp);
    } else {
      FirstDigit(chunk, lp);
    }
  }

  lemma DigitNotWhite(c: octet)
    requires IsDigit(c) || IsHexLetter(c)
    ensures c !in WHITE
  {
  }

  lemma KeptInPairs(specs: Option<Specs>, chunk: text, lp: nat, m: Vars, out: seq<octet>)
    requires Lead(chunk) <= lp < |chunk| && Shape(chunk, lp, m, out)
    requires if IsDigit(chunk[lp]) then !m.state.LeadSpace? && !m.state.WaitDigits? && !m.state.DecDigits?
             else IsHexLetter(chunk[lp])
    ensures Followed(chunk, lp, out, Char(specs, chunk, lp, m)) && !Char(specs, chunk, lp, m).TakeTag?
  {
    var c, v := chunk[lp], DigitValue(chunk[lp]).value;
    MarksIs(c);
    NibbleIs(c, v);
    HalfTaken(specs, chunk, lp, m, v);
    hide Lead, Nibble, White, TagEntry, DigitValue, AllDigits, Marks, NumeralAt, PairsSoFar;
    hide Char;
    if m.state.HexDigit2? {
      SecondHalf(chunk, lp, m, out, v);
    } else if m.state.HexDigit1? || m.state.LeadSpace? || m.state.SkipSpHex? {
      FirstHalf(chunk, lp, m, out, v);
    } else {
      DigitElsewhere(specs, chunk, lp, m);
    }
  }

  lemma FirstHalf(chunk: text, lp: nat, m: Vars, out: seq<octet>, v: nat)
    requires Lead(chunk) <= lp < |chunk| && Shape(chunk, lp, m, out) && Nibble(chunk[lp], v)
    requires m.state.HexDigit1? || m.state.SkipSpHex? || (m.state.LeadSpace? && Marks(chunk[lp]))
    ensures Shape(chunk, lp + 1, m.(hex := v * 16, state := HexDigit2), out)
  {
    hide Lead, Nibble, Marks, NumeralAt, PairsSoFar;
    NothingStored(chunk, Lead(chunk));
    assert v * 16 % 16 == 0 && v * 16 / 16 == v;
  }

  lemma SecondHalf(chunk: text, lp: nat, m: Vars, out: seq<octet>, v: nat)
    requires lp < |chunk| && Shape(chunk, lp, m, out) && m.state.HexDigit2? && Nibble(chunk[lp], v)
    ensures Shape(chunk, lp + 1, m.(state := HexColon), out + [(m.hex + v) % 256])
  {
    hide Lead, Nibble, Hexadecimal, NumeralAt, PairsSoFar;
    assert v < 16 by { NibbleIs(chunk[lp], v); }
    PairStored(chunk, lp, m.hex, out, v);
  }

  lemma DigitElsewhere(specs: Option<Specs>, chunk: text, lp: nat, m: Vars)
    requires lp < |chunk| && (IsDigit(chunk[lp]) || IsHexLetter(chunk[lp]))
    requires !m.state.HexDigit1? && !m.state.HexDigit2? && !m.state.LeadSpace? && !m.state.SkipSpHex?
    requires IsDigit(chunk[lp]) ==> !m.state.WaitDigits? && !m.state.DecDigits?
    ensures var s := Char(specs, chunk, lp, m);
            s.Stray? || s.Reject? || (m.state.DecDigits? && s == Rewind(m.(state := SkipSpHex, start := 0)))
  {
    DigitNotWhite(chunk[lp]);
  }

  lemma NothingStored(chunk: text, l: nat)
    ensures l <= |chunk| ==> PairsSoFar(chunk, l, [], 0)
  {
  }

  lemma FirstDigit(chunk: text, lp: nat)
    requires lp < |chunk| && IsDigit(chunk[lp])
    ensures AllDigits(chunk[lp..lp + 1])
  {
  }

  lemma PairStored(chunk: text, lp: nat, hex: nat, out: seq<octet>, v: nat)
    requires lp < |chunk| && v < 16 && Nibble(chunk[lp], v)
    requires lp == Lead(chunk) + 3 * |out| + 1 && PairsSoFar(chunk, Lead(chunk), out, |out|)
    requires hex % 16 == 0 && Nibble(chunk[lp - 1], hex / 16)
    ensures (hex + v) % 256 == hex + v && PairsSoFar(chunk, Lead(chunk), out + [hex + v], |out|)
  {
    hide Nibble, Lead;
    assert hex / 16 < 16 by { NibbleIs(chunk[lp - 1], hex / 16); }
    assert (hex + v) / 16 == hex / 16 && (hex + v) % 16 == v;
  }

  lemma {:induction false} ScanShape(specs: Option<Specs>, chunk: text, lp: nat, m: Vars, out: seq<octet>)
    requires Shape(chunk, lp, m, out)
    ensures match Scan(specs, chunk, lp, m, out)
            case None => true
            case Some((last, stored)) =>
              || Shape(chunk, |chunk|, last, stored)
              || last.state.Unexpected?
              || (last.state.EndEnum? && Tagged(specs, chunk, last))
    decreases DecimalMode(m.state), |chunk| - lp
  {
    hide Shape, Char, TagEntry;
    assert lp <= |chunk| by { ShapeWithin(chunk, lp, m, out); }
    if lp < |chunk| {
      ShapeKept(specs, chunk, lp, m, out);
      var s := Char(specs, chunk, lp, m);
      Decreases(specs, chunk, lp, m, out);
      if s.Continue? {
        ScanShape(specs, chunk, lp + 1, s.vars, out);
      } else if s.Emit? {
        ScanShape(specs, chunk, lp + 1, s.vars, out + [s.o]);
      } else if s.Rewind? {
        ScanShape(specs, chunk, 0, s.vars, out);
      }
    }
  }

  ghost predicate Tagged(specs: Option<Specs>, chunk: text, m: Vars) {
    && Lead(chunk) < |chunk| && chunk[Lead(chunk)] == LESS
    && TagEntry(specs, chunk).Some? && m.dec == TagEntry(specs, chunk).value.value
  }

  lemma ShapeWithin(chunk: text, lp: nat, m: Vars, out: seq<octet>)
    requires Shape(chunk, lp, m, out)
    ensures lp <= |chunk|
  {
  }

  lemma Decreases(specs: Option<Specs>, chunk: text, lp: nat, m: Vars, out: seq<octet>)
    requires lp < |chunk|
    ensures var s := Char(specs, chunk, lp, m);
            && (s.Continue? || s.Emit? ==> DecimalMode(s.vars.state) ==> DecimalMode(m.state))
            && (s.Rewind? ==> DecimalMode(m.state) && !DecimalMode(s.vars.state))
  {
    hide TagEntry;
  }

  /** Text read to its end in one of the final states has a form. */
  lemma ShapeSpelled(specs: Option<Specs>, chunk: text, m: Vars, out: seq<octet>) returns (f: Form)
    requires Shape(chunk, |chunk|, m, out) && Finish(chunk, m, out) != BrokenEncoding
    ensures Spells(specs, f, chunk)
  {
    hide DecimalOutcome, Der;
    var l := Lead(chunk);
    match m.state
    case LeadSpace =>
      assert chunk[..l] == chunk;
      f := Blank;
    case DecDigits =>
      f := NumeralSpelled(specs, chunk, |chunk|);
    case DigitsTrailSpace =>
      assert chunk[m.end..] == chunk[m.end..|chunk|];
      f := NumeralSpelled(specs, chunk, m.end);
    case HexColon | HexTrailSpace =>
      var end := l + 3 * |out| - 1;
      assert chunk[end..] == chunk[end..|chunk|];
      f := PairsSpelled(specs, chunk, out);
    case _ =>
  }

  lemma NumeralSpelled(specs: Option<Specs>, chunk: text, end: nat) returns (f: Form)
    requires NumeralAt(chunk, Lead(chunk), end) && White(chunk[end..])
    ensures Spells(specs, f, chunk)
  {
    hide Lead, White;
    var l := Lead(chunk);
    var p := if chunk[l] == MINUS || chunk[l] == PLUS then l + 1 else l;
    assert chunk == chunk[..l] + chunk[l..p] + chunk[p..end] + chunk[end..];
    f := Number(chunk[..l], chunk[l..p], chunk[p..end], chunk[end..]);
    assert chunk[l..p] == if p == l then [] else [chunk[l]];
  }

  lemma PairsSpelled(specs: Option<Specs>, chunk: text, out: seq<octet>) returns (f: Form)
    requires out != [] && PairsSoFar(chunk, Lead(chunk), out, |out| - 1) && White(chunk[Lead(chunk) + 3 * |out| - 1..])
    requires Hexadecimal(chunk)
    ensures Spells(specs, f, chunk)
  {
    hide Lead, Nibble, Marks;
    var l := Lead(chunk);
    var end := l + 3 * |out| - 1;
    var lead, body, trail := chunk[..l], chunk[l..end], chunk[end..];
    assert chunk == lead + body + trail;
    assert Paired(body, out);
    var i :| 0 <= i < |chunk| && Marks(chunk[i]);
    if i < l {
      MarkNotWhite(lead, i);
    } else if i >= end {
      MarkNotWhite(trail, i - end);
    }
    assert body[i - l] == chunk[i];
    f := Pairs(lead, body, out, trail);
  }

  lemma MarkNotWhite(t: text, i: nat)
    requires White(t) && i < |t|
    ensures !Marks(t[i])
  {
    MarksIs(t[i]);
    WhiteIs(t[i]);
  }

  /** Text that is not refused has one of the forms. */
  lemma Spelled(specs: Option<Specs>, chunk: text) returns (f: Form)
    requires BodyOutcome(specs, chunk) != BrokenEncoding
    ensures Spells(specs, f, chunk)
  {
    hide Scan, TagEntry, DecimalOutcome, Der;
    ShapeStarts(chunk);
    ScanShape(specs, chunk, 0, INITIAL, []);
    var (m, out) := Scan(specs, chunk, 0, INITIAL, []).value;
    if m.state.EndEnum? {
      var l := Lead(chunk);
      f := Tag(chunk[..l], chunk[l + 1..], TagEntry(specs, chunk).value);
      assert chunk == chunk[..l] + [LESS] + chunk[l + 1..];
    } else {
      f := ShapeSpelled(specs, chunk, m, out);
    }
  }

  lemma ShapeStarts(chunk: text)
    ensures Shape(chunk, 0, INITIAL, [])
  {
  }

  /** The parser takes exactly the text of some form, and every form for what it stands for. */
  lemma ReadIffSpelled(specs: Option<Specs>, chunk: text)
    ensures BodyOutcome(specs, chunk) != BrokenEncoding <==> exists f :: Spells(specs, f, chunk)
    ensures forall f :: Spells(specs, f, chunk) ==> BodyOutcome(specs, chunk) == Meaning(f)
  {
    hide BodyOutcome, White, Paired, TagEntry;
    forall f | Spells(specs, f, chunk) ensures BodyOutcome(specs, chunk) == Meaning(f) != BrokenEncoding {
      FormRead(specs, f, chunk);
    }
    if BodyOutcome(specs, chunk) != BrokenEncoding {
      var f := Spelled(specs, chunk);
    }
  }

  // ----- printing, then parsing ---------------------------------------------------------------

  /** A number printed in decimal is parsed to its canonical contents exactly when it fits intmax_t. */
  lemma DecimalRoundTrip(specs: Option<Specs>, v: int)
    requires v >= IMAX_MIN
    ensures BodyOutcome(specs, SignedDec(v)) == if FitsImax(v) then Consumed(Der(v)) else DecoderLimit
  {
    hide BodyOutcome, Der, Dec, NumVal;
    var sign, digits := if v < 0 then [MINUS] else [], Dec(if v < 0 then -v else v);
    NumValDec(if v < 0 then -v else v);
    assert [] + sign + digits + [] == SignedDec(v);
    NumberRead(specs, [], sign, digits, []);
    if v < 0 { InRangeNeverOverflows(sign, digits); }
  }

  lemma InRangeNeverOverflows(sign: text, digits: text)
    requires AllDigits(digits) && NumVal(digits) <= -IMAX_MIN
    ensures !Overflows(sign, digits)
  {
    forall j | 0 <= j < |digits| ensures NumVal(digits[..j]) < -IMAX_MIN - 8 {
      assert digits[..j + 1] == digits[..j] + [digits[j]];
      NumValPrefix(digits, j + 1);
      NumValSnoc(digits[..j], digits[j]);
    }
  }

  /** The long form is pairs of digits. */
  lemma {:induction false} HexTextPaired(s: seq<octet>)
    requires s != []
    ensures Paired(HexText(s), s)
  {
    hide Nibble, Paired;
    HexDigitIs(s[0] / 16);
    HexDigitIs(s[0] % 16);
    var pair := HexPair(s[0]);
    if |s| == 1 {
      OnePaired(pair, s[0]);
      assert s == [s[0]];
    } else {
      HexTextPaired(s[1..]);
      PairedCons(pair, HexText(s[1..]), s[0], s[1..]);
      assert s == [s[0]] + s[1..];
    }
  }

  lemma OnePaired(pair: text, o: octet)
    requires |pair| == 2 && Nibble(pair[0], o / 16) && Nibble(pair[1], o % 16)
    ensures Paired(pair, [o])
  {
    hide Nibble;
  }

  lemma PairedCons(pair: text, rest: text, o: octet, s: seq<octet>)
    requires |pair| == 2 && Nibble(pair[0], o / 16) && Nibble(pair[1], o % 16) && Paired(rest, s)
    ensures Paired(pair + ([COLON] + rest), [o] + s)
  {
    hide Nibble;
    var t, r := pair + ([COLON] + rest), [o] + s;
    assert forall i :: 3 <= i < |t| ==> t[i] == rest[i - 3];
    forall k | 1 <= k < |r|
      ensures Nibble(t[3 * k], r[k] / 16) && Nibble(t[3 * k + 1], r[k] % 16) && (k + 1 < |r| ==> t[3 * k + 2] == COLON)
    {
      assert r[k] == s[k - 1] && t[3 * k] == rest[3 * (k - 1)] && t[3 * k + 1] == rest[3 * (k - 1) + 1];
      assert k + 1 < |r| ==> t[3 * k + 2] == rest[3 * (k - 1) + 2];
    }
  }

  /** A printed long form is read back octet for octet. */
  lemma HexRoundTrip(specs: Option<Specs>, s: seq<octet>)
    requires |s| >= 2
    ensures BodyOutcome(specs, HexText(s)) == Consumed(s)
  {
    hide BodyOutcome, HexText, Nibble;
    HexTextPaired(s);
    var t := HexText(s);
    assert t[3 * 0 + 2] == COLON && Marks(t[2]);
    assert [] + t + [] == t;
    PairsRead(specs, [], t, s, []);
  }

  /** Names that can stand in a tag: nothing that would end it early. */
  ghost predicate TagNames(specs: Specs) {
    forall k, i :: 0 <= k < |specs.value2enum| && 0 <= i < |specs.value2enum[k].name|
      ==> specs.value2enum[k].name[i] !in TERMINATORS
  }

  lemma {:induction false} ByValueListed(table: seq<Entry>, value: int) returns (k: nat)
    requires ByValue(table, value).Some?
    ensures k < |table| && ByValue(table, value) == Some(table[k]) && table[k].value == value
  {
    if table[0].value == value {
      k := 0;
    } else {
      k := ByValueListed(table[1..], value);
      k := k + 1;
    }
  }

  /** A name in a tag, whatever ends it and follows it, is parsed to its number. */
  lemma NameRead(specs: Specs, k: nat, end: octet, rest: text)
    requires specs.WellFormed() && TagNames(specs) && k < |specs.value2enum| && end in TERMINATORS
    ensures BodyOutcome(Some(specs), [LESS] + specs.value2enum[k].name + [end] + rest)
         == Consumed(Der(specs.value2enum[k].value))
  {
    hide BodyOutcome, ByName, ByValue, TagEntry;
    var name := specs.value2enum[k].name;
    var tag := [LESS] + name + [end] + rest;
    forall i | 1 <= i <= |name| ensures tag[i] !in TERMINATORS {
      assert tag[i] == name[i - 1];
    }
    TagEntryIs(specs, tag, |name|);
    assert tag[1..|name| + 1] == name;
    EntryFoundBothWays(specs, k);
    assert [] + [LESS] + (name + [end] + rest) == tag;
    TagRead(Some(specs), [], name + [end] + rest, specs.value2enum[k]);
  }

  /** The empty tag printed for an enumerated value is parsed back to that value. */
  lemma EnumRoundTrip(specs: Specs, value: int)
    requires specs.WellFormed() && TagNames(specs)
    requires ByValue(specs.value2enum, value).Some?
    ensures var name := ByValue(specs.value2enum, value).value.name;
            BodyOutcome(Some(specs), [LESS] + name + [SLASH, GREATER]) == Consumed(Der(value))
  {
    hide BodyOutcome, ByValue, Der;
    var k := ByValueListed(specs.value2enum, value);
    var name := specs.value2enum[k].name;
    NameRead(specs, k, SLASH, [GREATER]);
    assert [LESS] + name + [SLASH] + [GREATER] == [LESS] + name + [SLASH, GREATER];
  }

  /** A value some entry of the table has. */
  ghost predicate Listed(specs: Option<Specs>, v: Option<int>, k: int) {
    specs.Some? && 0 <= k < |specs.value.value2enum| && v == Some(specs.value.value2enum[k].value)
  }

  /** Decimal digits of a number without a zero in front. */
  lemma {:induction false} DecPlain(n: nat)
    ensures NumVal(Dec(n)) == n && Decimals(Dec(n)) && (n > 0 ==> Dec(n)[0] != '0' as int) && (n == 0 ==> |Dec(n)| == 1)
  {
    NumValDec(n);
    if n >= 10 { DecPlain(n / 10); }
  }

  /**
    What is printed: the empty tag of the entry that has the value; else nothing from a strict type,
    the shortest decimal of a value that fits its 64-bit type, and pairs of digits of any other.
   */
  lemma Printed(specs: Option<Specs>, contents: seq<octet>)
    requires specs.Some? ==> specs.value.WellFormed()
    ensures var unsigned := specs.Some? && specs.value.fieldUnsigned;
            var v, t := Native(contents, unsigned), XerText(specs, contents);
            && (forall k :: Listed(specs, v, k) ==>
                  t == Some(['<' as int] + specs.value.value2enum[k].name + ['/' as int, '>' as int]))
            && ((forall k :: !Listed(specs, v, k)) ==>
                  && (t == None <==> specs.Some? && specs.value.strict)
                  && (t.Some? && v == None && contents != [] ==> Paired(t.value, contents))
                  && (t.Some? && v.Some? ==>
                        exists digits ::
                          && t.value == (if v.value < 0 then ['-' as int] else []) + digits
                          && Decimals(digits) && digits != []
                          && NumVal(digits) == (if v.value < 0 then -v.value else v.value)
                          && (|digits| > 1 ==> digits[0] != '0' as int)))
  {
    hide Unsigned, Signed, HexText, ByValue, Dec, NumVal;
    var v := Native(contents, IsUnsigned(specs));
    forall k | Listed(specs, v, k)
      ensures ByValue(specs.value.value2enum, v.value) == Some(specs.value.value2enum[k])
    {
      EntryFoundBothWays(specs.value, k);
    }
    if v.Some? {
      NoTable(v.value);
      if specs.Some? && ByValue(specs.value.value2enum, v.value).Some? {
        var k := ByValueListed(specs.value.value2enum, v.value);
        assert Listed(specs, v, k);
      }
      var digits := Dec(if v.value < 0 then -v.value else v.value);
      DecPlain(if v.value < 0 then -v.value else v.value);
      assert [] + digits == digits;
    } else if contents != [] {
      HexTextPaired(contents);
    }
  }

  /** What reading back should store: canonical contents of a 64-bit value, the very octets of a longer one. */
  function Restored(specs: Option<Specs>, contents: seq<octet>): seq<octet> {
    match Native(contents, IsUnsigned(specs))
    case Some(value) => Der(value)
    case None => contents
  }

  /**
    Printing then parsing keeps the value of every INTEGER, with one exception
    that the range check of the parser turns into an error: an unsigned value
    above INTMAX_MAX.
   */
  lemma XerRoundTrip(specs: Option<Specs>, contents: seq<octet>)
    requires specs.Some? ==> specs.value.WellFormed() && TagNames(specs.value)
    requires XerText(specs, contents).Some?
    ensures BodyOutcome(specs, XerText(specs, contents).value)
         == if specs.Some? && specs.value.fieldUnsigned && IMAX_MAX < Unsigned(contents) <= UMAX_MAX then DecoderLimit
            else Consumed(Restored(specs, contents))
  {
    hide BodyOutcome, Der, ByValue, HexText, Unsigned, Signed;
    match Native(contents, IsUnsigned(specs))
    case Some(value) =>
      if EntryOf(specs, value).Some? {
        NoTable(value);
        EnumRoundTrip(specs.value, value);
      } else {
        DecimalRoundTrip(specs, value);
      }
    case None =>
      LongWhenLarge(specs, contents);
      HexRoundTrip(specs, contents);
  }

  lemma LongWhenLarge(specs: Option<Specs>, contents: seq<octet>)
    requires Native(contents, IsUnsigned(specs)) == None
    ensures |contents| > 8
  {
    if contents != [] && |contents| <= 8 {
      MinimalFits(contents);
      SmallUnsigned(contents);
    }
  }
}
