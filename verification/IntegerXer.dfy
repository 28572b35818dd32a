/**
  INTEGER as XML text: decimal for 64-bit values, colon-separated hexadecimal
  octets beyond, an empty tag for enumerated values; and the one-pass parser
  that may start over once in hexadecimal mode.
 */
module IntegerXer {
  import opened Octets
  import opened Decimal
  import opened Integer
  import opened EnumMap
  import opened Strtox

  const COLON: octet := 0x3a

  // ----- printing ---------------------------------------------------------------

  /** Octets each followed by a colon: what the printing loop accumulates. */
  function Colons(s: seq<octet>): (t: text)
    ensures |t| == 3 * |s|
  {
    if s == [] then [] else Colons(s[..|s| - 1]) + (HexPair(s[|s| - 1]) + [COLON])
  }

  /** The `xx:yy:zz` form. */
  function HexText(s: seq<octet>): text {
    if s == [] then []
    else if |s| == 1 then HexPair(s[0])
    else HexPair(s[0]) + ([COLON] + HexText(s[1..]))
  }

  lemma {:induction false} ColonsCons(s: seq<octet>)
    requires s != []
    ensures Colons(s) == HexPair(s[0]) + [COLON] + Colons(s[1..])
  {
    var n := |s| - 1;
    if n == 0 {
      assert s[..0] == [] && s[1..] == [];
      assert Colons(s) == Colons(s[..0]) + (HexPair(s[0]) + [COLON]);
    } else {
      ColonsCons(s[..n]);
      assert s[..n][1..] == s[1..][..n - 1];
    }
  }

  /** Dropping the last colon leaves the printed form. */
  lemma {:induction false} HexTextIsColons(s: seq<octet>)
    requires s != []
    ensures HexText(s) + [COLON] == Colons(s)
  {
    ColonsCons(s);
    if |s| > 1 {
      HexTextIsColons(s[1..]);
      assert HexText(s) + [COLON] == HexPair(s[0]) + [COLON] + (HexText(s[1..]) + [COLON]);
    } else {
      assert s[1..] == [];
      assert Colons([]) == [];
    }
  }

  predicate IsUnsigned(specs: Option<Specs>) {
    specs.Some? && specs.value.fieldUnsigned
  }

  predicate IsStrict(specs: Option<Specs>) {
    specs.Some? && specs.value.strict
  }

  function Table(specs: Option<Specs>): seq<Entry> {
    if specs == None then [] else specs.value.value2enum
  }

  /** The enumerated entry printed for a value; unsigned values beyond intmax_t have none. */
  function EntryOf(specs: Option<Specs>, value: int): Option<Entry> {
    if FitsImax(value) then ByValue(Table(specs), value) else None
  }

  /** What `INTEGER_encode_xer` prints; None is its failure. */
  function XerText(specs: Option<Specs>, contents: seq<octet>): Option<text> {
    match Native(contents, IsUnsigned(specs))
    case Some(value) =>
      var el := EntryOf(specs, value);
      if el.Some? then Some([LESS] + el.value.name + [SLASH, GREATER])
      else if IsStrict(specs) then None
      else Some(SignedDec(value))
    case None =>
      if IsStrict(specs) then None else Some(HexText(contents))
  }

  /** The long form of `INTEGER__dump`: a 32-character scratch buffer flushed as it fills. */
  method DumpHex(buf: seq<octet>) returns (out: text, wrote: nat)
    ensures out == HexText(buf) && wrote == |out|
  {
    hide HexPair, Colons, HexText;
    var scratch := new octet[32](_ => 0);
    out, wrote := [], 0;
    var p, b := 0, 0;
    ColonsSnoc(buf, 0);
    while b < |buf|
      invariant 0 <= b <= |buf| && 0 <= p <= 30
      invariant b > 0 ==> p > 0
      invariant b == 0 ==> p == 0
      invariant wrote == |out|
      invariant out + scratch[..p] == Colons(buf[..b])
    {
      if p >= scratch.Length - 4 {
        out := out + scratch[..p];
        wrote := wrote + p;
        p := 0;
        assert out + scratch[..p] == out;
      }
      ghost var was := scratch[..p];
      PutPair(scratch, p, buf[b]);
      ghost var pair := scratch[..p + 2];
      scratch[p + 2] := COLON;
      assert scratch[..p + 3] == pair + [COLON];
      Reassociate(out, was, HexPair(buf[b]), [COLON]);
      ColonsSnoc(buf, b);
      p, b := p + 3, b + 1;
    }
    assert buf[..b] == buf;
    if p != 0 {
      HexTextIsColons(buf);
      DropLast(out, scratch[..p], HexText(buf), COLON);
      assert scratch[..p][..p - 1] == scratch[..p - 1];
      p := p - 1;
    } else {
      HexTextOfNothing();
    }
    wrote := wrote + p;
    out := out + scratch[..p];
  }

  lemma ColonsSnoc(s: seq<octet>, i: nat)
    requires i <= |s|
    ensures Colons(s[..0]) == []
    ensures i < |s| ==> Colons(s[..i + 1]) == Colons(s[..i]) + (HexPair(s[i]) + [COLON])
  {
    hide HexPair;
    if i < |s| { assert s[..i + 1][..i] == s[..i]; }
  }

  lemma HexTextOfNothing()
    ensures HexText([]) == []
  {
  }

  /** `INTEGER_encode_xer` */
  method EncodeXer(specs: Option<Specs>, st: IntegerT) returns (out: Option<text>)
    requires st.Valid()
    requires specs.Some? ==> specs.value.WellFormed()
    ensures out == if st.buf == null then None else XerText(specs, st.Contents())
  {
    hide Unsigned, Signed, HexText, ByValue;
    if st.buf == null { return None; }
    var value: Option<int>;
    if IsUnsigned(specs) {
      value := ToUintmax(st);
    } else {
      value := ToIntmax(st);
    }
    if value.Some? {
      var el: Option<Entry> := None;
      if specs.Some? && FitsImax(value.value) {
        el := MapValue2Enum(specs, value.value);
      }
      NoTable(value.value);
      if el.Some? {
        return Some([LESS] + el.value.name + [SLASH, GREATER]);
      } else if IsStrict(specs) {
        return None;
      }
      return Some(SignedDec(value.value));
    } else if IsStrict(specs) {
      return None;
    }
    var hex, wrote := DumpHex(st.buf[..st.size]);
    out := Some(hex);
  }

  lemma NoTable(value: int)
    ensures ByValue([], value) == None
  {
  }

  // ----- parsing ----------------------------------------------------------------

  /** The result of a body decoder, with the contents it stored. `Undefined` is the signed overflow of `Strtox`. */
  datatype Outcome =
    | Consumed(contents: seq<octet>)
    | BrokenEncoding
    | DecoderLimit
    | NotBodyIgnore
    | UndefinedOverflow

  datatype State =
    | LeadSpace | SkipSpHex | WaitDigits | DecDigits | DigitsTrailSpace
    | HexDigit1 | HexDigit2 | HexTrailSpace | HexColon | EndEnum | Unexpected

  /** The parser's variables: state, `dec_value_start`, `dec_value_end`, the high half-octet and `dec_value`. */
  datatype Vars = Vars(state: State, start: nat, end: nat, hex: nat, dec: int)

  const INITIAL: Vars := Vars(LeadSpace, 0, 0, 0, 0)

  /** What one character does. */
  datatype Step =
    | Continue(vars: Vars)
    | Emit(vars: Vars, o: octet)
    | Rewind(vars: Vars)
    | TakeTag(vars: Vars)
    | Reject
    | Stray

  predicate IsHexLetter(c: octet) {
    !IsDigit(c) && DigitValue(c).Some?
  }

  /** The body of the character loop, one switch over the character and the state. */
  function Char(specs: Option<Specs>, chunk: text, lp: nat, m: Vars): Step
    requires lp < |chunk|
  {
    var c := chunk[lp];
    if IsSpace(c) then
      match m.state
      case LeadSpace | DigitsTrailSpace | HexTrailSpace | SkipSpHex => Continue(m)
      case DecDigits => Continue(m.(end := lp, state := DigitsTrailSpace))
      case HexColon => Continue(m.(state := HexTrailSpace))
      case _ => Stray
    else if c == MINUS || c == PLUS then
      if m.state.LeadSpace? then Continue(m.(dec := 0, start := lp, state := WaitDigits)) else Stray
    else if IsDigit(c) then
      match m.state
      case DecDigits => Continue(m)
      case SkipSpHex | HexDigit1 => Continue(m.(hex := DigitValue(c).value * 16, state := HexDigit2))
      case HexDigit2 => Emit(m.(state := HexColon), (m.hex + DigitValue(c).value) % 256)
      case HexColon => Reject
      case LeadSpace => Continue(m.(dec := 0, start := lp, state := DecDigits))
      case WaitDigits => Continue(m.(state := DecDigits))
      case _ => Stray
    else if c == LESS then
      if m.state.LeadSpace? && TagEntry(specs, chunk).Some? then
        TakeTag(m.(dec := TagEntry(specs, chunk).value.value, state := EndEnum))
      else Reject
    else if c == COLON then
      match m.state
      case HexColon => Continue(m.(state := HexDigit1))
      case DecDigits => Rewind(m.(state := SkipSpHex, start := 0))
      case _ => Stray
    else if IsHexLetter(c) then
      match m.state
      case SkipSpHex | LeadSpace | HexDigit1 => Continue(m.(hex := DigitValue(c).value * 16, state := HexDigit2))
      case HexDigit2 => Emit(m.(state := HexColon), (m.hex + DigitValue(c).value) % 256)
      case DecDigits => Rewind(m.(state := SkipSpHex, start := 0))
      case _ => Stray
    else Stray
  }

  /** Not yet committed to hexadecimal: the only states from which the parser may start over. */
  predicate DecimalMode(s: State) {
    s.LeadSpace? || s.WaitDigits? || s.DecDigits? || s.DigitsTrailSpace?
  }

  /** The loop from position lp on; None is an immediate rejection. */
  function Scan(specs: Option<Specs>, chunk: text, lp: nat, m: Vars, out: seq<octet>): Option<(Vars, seq<octet>)>
    requires lp <= |chunk|
    decreases DecimalMode(m.state), |chunk| - lp
  {
    if lp == |chunk| then Some((m, out))
    else
      match Char(specs, chunk, lp, m)
      case Continue(m') => Scan(specs, chunk, lp + 1, m', out)
      case Emit(m', o) => Scan(specs, chunk, lp + 1, m', out + [o])
      case Rewind(m') => Scan(specs, chunk, 0, m', out)
      case TakeTag(m') => Some((m', out))
      case Reject => None
      case Stray => Some((m.(state := Unexpected), out))
  }

  /** The exact value of a decimal text, as `asn_strtoimax_lim` reports it. */
  function DecimalOutcome(str: text): Outcome {
    var v := Value(Digits(str), Negative(str));
    if SignLength(str) == |str| then BrokenEncoding
    else if RunsPastBoundary(str) then UndefinedOverflow
    else if !FitsImax(v) then DecoderLimit
    else if SignLength(str) + |Digits(str)| < |str| then BrokenEncoding
    else Consumed(Der(v))
  }

  /** The switch over the final state. */
  function Finish(chunk: text, m: Vars, out: seq<octet>): Outcome {
    match m.state
    case EndEnum => Consumed(Der(m.dec))
    case DecDigits => if m.start <= |chunk| then DecimalOutcome(chunk[m.start..]) else BrokenEncoding
    case DigitsTrailSpace =>
      if m.start <= m.end <= |chunk| then DecimalOutcome(chunk[m.start..m.end]) else BrokenEncoding
    case HexColon | HexTrailSpace => Consumed(out)
    case LeadSpace => NotBodyIgnore
    case _ => BrokenEncoding
  }

  function BodyOutcome(specs: Option<Specs>, chunk: text): Outcome {
    match Scan(specs, chunk, 0, INITIAL, [])
    case None => BrokenEncoding
    case Some((m, out)) => Finish(chunk, m, out)
  }

  /**
    What the loop keeps: three characters are spent on each octet stored, less
    the colon after the last, and the number being read lies before lp.
   */
  predicate Sound(m: Vars, lp: nat, size: nat) {
    match m.state
    case HexDigit1 => lp >= 3 * size
    case HexDigit2 => lp >= 3 * size + 1
    case HexColon | HexTrailSpace | Unexpected => lp >= 3 * size - 1
    case WaitDigits | DecDigits => size == 0 && m.start < lp
    case DigitsTrailSpace => size == 0 && m.start < m.end <= lp
    case EndEnum => size == 0 && FitsImax(m.dec)
    case _ => size == 0
  }

  /** `INTEGER__xer_body_decode`, with the preallocation of chunk_size/3 + 1 octets and a terminator. */
  method XerBodyDecode(specs: Option<Specs>, st: IntegerT, chunk: text) returns (r: Outcome)
    requires specs.Some? ==> specs.value.WellFormed()
    modifies st
    ensures st.Valid() && r == BodyOutcome(specs, chunk)
    ensures r.Consumed? ==> st.buf != null && st.Contents() == r.contents
  {
    hide TagEntry, Char, Finish;
    st.buf := new octet[|chunk| / 3 + 2](_ => 0);
    st.size := 0;
    var prealloc := st.buf;
    var m, lp := INITIAL, 0;
    ghost var whole := Scan(specs, chunk, 0, INITIAL, []);
    while lp < |chunk|
      invariant 0 <= lp <= |chunk| && st.Valid() && st.buf == prealloc
      invariant fresh(prealloc) && prealloc.Length == |chunk| / 3 + 2
      invariant Sound(m, lp, st.size)
      invariant Scan(specs, chunk, lp, m, st.Contents()) == whole
      decreases DecimalMode(m.state), |chunk| - lp
    {
      CharKeeps(specs, chunk, lp, m, st.size);
      match Char(specs, chunk, lp, m) {
        case Continue(m') =>
          m, lp := m', lp + 1;
        case Emit(m', o) =>
          ghost var before := st.Contents();
          st.buf[st.size] := o;
          st.size := st.size + 1;
          assert st.Contents() == before + [o];
          m, lp := m', lp + 1;
        case Rewind(m') =>
          m, lp := m', 0;
        case TakeTag(m') =>
          m := m';
          break;
        case Reject =>
          return BrokenEncoding;
        case Stray =>
          m := m.(state := Unexpected);
          break;
      }
    }
    assert whole == Some((m, st.Contents()));
    r := FinishDecode(st, chunk, m);
  }

  lemma CharKeeps(specs: Option<Specs>, chunk: text, lp: nat, m: Vars, size: nat)
    requires specs.Some? ==> specs.value.WellFormed()
    requires lp < |chunk| && Sound(m, lp, size)
    ensures var s := Char(specs, chunk, lp, m);
            && (s.Continue? ==>
                  Sound(s.vars, lp + 1, size) && (DecimalMode(s.vars.state) ==> DecimalMode(m.state)))
            && (s.Emit? ==>
                  size < |chunk| / 3 + 1 && Sound(s.vars, lp + 1, size + 1) && !DecimalMode(s.vars.state))
            && (s.Rewind? ==>
                  size == 0 && Sound(s.vars, 0, 0) && DecimalMode(m.state) && !DecimalMode(s.vars.state))
            && (s.TakeTag? ==> size == 0 && s.vars.state.EndEnum? && FitsImax(s.vars.dec))
    ensures size < |chunk| / 3 + 2
  {
    hide TagEntry;
    TagEntryFits(specs, chunk);
  }

  lemma TagEntryFits(specs: Option<Specs>, tag: text)
    requires specs.Some? ==> specs.value.WellFormed()
    ensures TagEntry(specs, tag).Some? ==> FitsImax(TagEntry(specs, tag).value.value)
  {
    if TagEntry(specs, tag).Some? {
      ByNameListed(specs.value.value2enum, tag[1..][..TagRun(tag[1..])]);
    }
  }

  /** The decimal part of the final switch: a value to store, or the code returned instead. */
  method DecimalValue(str: text) returns (value: Option<int>, r: Outcome)
    requires str != []
    ensures match value
            case Some(v) => FitsImax(v) && DecimalOutcome(str) == Consumed(Der(v))
            case None => r == DecimalOutcome(str) && !r.Consumed?
  {
    hide Digits, Der, RunsPastBoundary;
    value, r := None, BrokenEncoding;
    var p := StrtoImax(str);
    match p {
      case Parsed(v, end, extra) => if !extra { value := Some(v); }
      case OutOfRange(end) => r := DecoderLimit;
      case Undefined => r := UndefinedOverflow;
      case ExpectMore(end) =>
      case Invalid =>
    }
  }

  /** The final switch: parses a decimal, or terminates the octets already stored. */
  method FinishDecode(st: IntegerT, chunk: text, m: Vars) returns (r: Outcome)
    requires st.Valid() && st.buf != null && st.size < st.buf.Length
    requires m.state.EndEnum? ==> FitsImax(m.dec)
    requires m.state.DecDigits? ==> m.start < |chunk|
    requires m.state.DigitsTrailSpace? ==> m.start < m.end <= |chunk|
    modifies st, st.buf
    ensures st.Valid()
    ensures r == Finish(chunk, m, old(st.Contents()))
    ensures r.Consumed? ==> st.buf != null && st.Contents() == r.contents
  {
    hide DecimalOutcome;
    var value := Some(m.dec);
    match m.state {
      case EndEnum =>
      case DecDigits =>
        value, r := DecimalValue(chunk[m.start..]);
      case DigitsTrailSpace =>
        value, r := DecimalValue(chunk[m.start..m.end]);
      case HexColon | HexTrailSpace =>
        ghost var contents := st.Contents();
        st.buf[st.size] := 0;
        assert st.Contents() == contents;
        return Consumed(st.buf[..st.size]);
      case LeadSpace =>
        return NotBodyIgnore;
      case _ =>
        return BrokenEncoding;
    }
    if value.Some? {
      FromIntmax(st, value.value);
      r := Consumed(st.buf[..st.size]);
    }
  }
}
