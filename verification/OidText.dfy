/**
  OBJECT IDENTIFIER as dotted decimal text: the printer, the arc parser, and
  the XML body decoder built on it.
 */
module OidText {
  import opened Octets
  import opened Decimal
  import opened ObjectIdentifier
  import opened Strtox

  const DOT: octet := 0x2e

  predicate AllSpace(s: text) {
    forall i :: 0 <= i < |s| ==> IsSpace(s[i])
  }

  // ----- printing -----------------------------------------------------------------

  /** Each arc with a dot in front. */
  function Dotted(arcs: seq<arc>): text {
    if arcs == [] then [] else [DOT] + Dec(arcs[0]) + Dotted(arcs[1..])
  }

  function OidString(arcs: seq<arc>): text
    requires arcs != []
  {
    Dec(arcs[0]) + Dotted(arcs[1..])
  }

  lemma {:induction false} DecLength(n: nat, k: nat, p: nat)
    requires n < p && 1 <= k && p == Pow10(k)
    ensures |Dec(n)| <= k
  {
    if n >= 10 {
      DecLength(n / 10, k - 1, p / 10);
    }
  }

  function Pow10(k: nat): nat {
    if k == 0 then 1 else 10 * Pow10(k - 1)
  }

  lemma ArcPrintsShort(v: arc)
    ensures |Dec(v)| <= 10
  {
    assert Pow10(5) == 100000;
    assert Pow10(10) == 100000_00000;
    DecLength(v, 10, Pow10(10));
  }

  lemma {:induction false} DottedConcat(a: seq<arc>, b: seq<arc>)
    ensures Dotted(a + b) == Dotted(a) + Dotted(b)
  {
    if a == [] {
      assert a + b == b;
    } else {
      hide Dotted, Dec;
      DottedConcat(a[1..], b);
      DottedCons(a);
      DottedCons(a + b);
      FirstOfConcat(a, b);
      Associative([DOT] + Dec(a[0]), Dotted(a[1..]), Dotted(b));
    }
  }

  lemma DottedCons(arcs: seq<arc>)
    requires arcs != []
    ensures Dotted(arcs) == [DOT] + Dec(arcs[0]) + Dotted(arcs[1..])
  {
    hide Dec;
  }

  /** `OBJECT_IDENTIFIER__dump_body`: None is the failure return; the 32-character scratch buffer always suffices. */
  method DumpBody(st: ObjectId) returns (out: Option<text>)
    requires st.Valid() && st.buf != null
    ensures match Decode(st.Contents())
            case None => out == None
            case Some(arcs) => out == Some(OidString(arcs))
  {
    hide FirstArc, Dec;
    var contents := st.buf[..st.size];
    var rd := GetSingleArc(contents);
    if !rd.Got? { return None; }
    var two := FirstTwo(rd.value);
    ArcPrintsShort(two[0]);
    ArcPrintsShort(two[1]);
    var scratch := Dec(two[0]) + [DOT] + Dec(two[1]);
    if |scratch| >= 32 { return None; }
    var produced, off := scratch, rd.length;
    ghost var sofar := two;
    FirstTwoPrinted(two);
    while true
      invariant 0 <= off <= |contents|
      invariant sofar != [] && produced == OidString(sofar)
      invariant match DecodeRest(contents[off..])
                case None => Decode(contents) == None
                case Some(rest) => Decode(contents) == Some(sofar + rest)
      decreases |contents| - off
    {
      rd := GetSingleArc(contents[off..]);
      match rd {
        case Broken => return None;
        case NoMore => break;
        case Got(v, n) =>
          GrowSofar(contents, off, sofar, v, n);
          off := off + n;
          ArcPrintsShort(v);
          scratch := [DOT] + Dec(v);
          if |scratch| >= 32 { return None; }
          ArcPrinted(sofar, v);
          produced := produced + scratch;
          sofar := sofar + [v];
      }
    }
    assert sofar + [] == sofar;
    if off != |contents| { return None; }
    out := Some(produced);
  }

  lemma FirstTwoPrinted(two: seq<arc>)
    requires |two| == 2
    ensures OidString(two) == Dec(two[0]) + [DOT] + Dec(two[1])
  {
    hide Dec;
    assert two[1..][1..] == [];
    assert Dotted(two[1..]) == [DOT] + Dec(two[1]) + Dotted(two[1..][1..]);
  }

  lemma ArcPrinted(sofar: seq<arc>, v: arc)
    requires sofar != []
    ensures OidString(sofar + [v]) == OidString(sofar) + ([DOT] + Dec(v))
  {
    hide Dec;
    assert (sofar + [v])[1..] == sofar[1..] + [v];
    DottedConcat(sofar[1..], [v]);
    assert [v][1..] == [];
    assert Dotted([v]) == [DOT] + Dec(v) + Dotted([v][1..]);
  }

  // ----- parsing --------------------------------------------------------------------

  datatype State = LeadSpace | TailSpace | AfterValue | WaitDigits

  /**
    `OBJECT_IDENTIFIER_parse_arcs` from position i on: None is the error return,
    an empty list the return value 0.
   */
  function ParseFrom(t: text, i: nat, state: State, arcs: seq<arc>): Option<seq<arc>>
    requires i <= |t|
    decreases |t| - i
  {
    if i == |t| then
      match state
      case LeadSpace => Some([])
      case WaitDigits => None
      case _ => Some(arcs)
    else if IsSpace(t[i]) then
      match state
      case LeadSpace | TailSpace => ParseFrom(t, i + 1, state, arcs)
      case AfterValue => ParseFrom(t, i + 1, TailSpace, arcs)
      case WaitDigits => None
    else if t[i] == DOT then
      if state.AfterValue? then ParseFrom(t, i + 1, WaitDigits, arcs) else None
    else if IsDigit(t[i]) then
      match state
      case TailSpace | AfterValue => None
      case LeadSpace | WaitDigits =>
        var run := DigitRun(t[i..]);
        var v := NumVal(t[i..][..run]);
        if v <= ARC_MAX && run > 0 then ParseFrom(t, i + run, AfterValue, arcs + [v]) else None
    else None
  }

  function Parse(t: text): Option<seq<arc>> {
    ParseFrom(t, 0, LeadSpace, [])
  }

  /** The arcs stored in the caller's slots, as many as there is room for. */
  predicate Stored(arcs: seq<arc>, slots: seq<arc>) {
    forall k :: 0 <= k < |arcs| && k < |slots| ==> slots[k] == arcs[k]
  }

  /** `OBJECT_IDENTIFIER_parse_arcs` on a text of known length. */
  method ParseArcs(t: text, slots: array<arc>) returns (num: int)
    modifies slots
    ensures match Parse(t)
            case None => num == -1
            case Some(arcs) => num == |arcs| && Stored(arcs, slots[..])
  {
    hide NumVal, DigitRun;
    var i, state, numArcs := 0, LeadSpace, 0;
    ghost var arcs: seq<arc> := [];
    while i < |t|
      invariant 0 <= i <= |t| && numArcs == |arcs|
      invariant state.LeadSpace? <==> arcs == []
      invariant Stored(arcs, slots[..])
      invariant ParseFrom(t, i, state, arcs) == Parse(t)
      decreases |t| - i
    {
      var c := t[i];
      if IsSpace(c) {
        if state.WaitDigits? { return -1; }
        if state.AfterValue? { state := TailSpace; }
        i := i + 1;
      } else if c == DOT {
        if !state.AfterValue? { return -1; }
        state := WaitDigits;
        i := i + 1;
      } else if IsDigit(c) {
        if state.TailSpace? || state.AfterValue? { return -1; }
        var value, length := CaptureArc(t[i..]);
        if value == None { return -1; }
        if numArcs < slots.Length { slots[numArcs] := value.value; }
        arcs := arcs + [value.value];
        numArcs := numArcs + 1;
        i := i + length;
        state := AfterValue;
      } else {
        return -1;
      }
    }
    num := if state.LeadSpace? then 0 else if state.WaitDigits? then -1 else numArcs;
  }

  /** `_OID_CAPTURE_ARC`: the digit run at the start of the text, when it is an arc. */
  method CaptureArc(t: text) returns (value: Option<arc>, length: nat)
    requires t != [] && IsDigit(t[0])
    ensures var run := DigitRun(t);
            var v := NumVal(t[..run]);
            run > 0 && if v <= ARC_MAX then value == Some(v) && length == run else value == None
  {
    value, length := None, 0;
    assert DigitRun(t) > 0;
    hide NumVal, DigitRun;
    assert t[0..] == t;
    assert Digits(t) == t[..DigitRun(t)];
    var r := StrtoUmax(t);
    if r.OutOfRange? {
      NumValPrefix(Digits(t), r.end + 1);
    } else if r.Parsed? && r.value <= ARC_MAX {
      return Some(r.value), r.end;
    }
  }

  // ----- the accepted language -----------------------------------------------------------

  predicate IsNumeral(s: text) {
    s != [] && AllDigits(s)
  }

  /** Numerals joined by dots. */
  function DotJoin(numerals: seq<text>): text {
    if numerals == [] then []
    else if |numerals| == 1 then numerals[0]
    else numerals[0] + ([0x2e] + DotJoin(numerals[1..]))
  }

  predicate Numerals(numerals: seq<text>) {
    forall k :: 0 <= k < |numerals| ==> IsNumeral(numerals[k]) && NumVal(numerals[k]) <= 0xffff_ffff
  }

  function Values(numerals: seq<text>): seq<arc>
    requires Numerals(numerals)
  {
    if numerals == [] then []
    else
      var v: arc := NumVal(numerals[0]);
      [v] + Values(numerals[1..])
  }

  /** Spaces, dotted numerals each worth at most 2^32-1, spaces. */
  ghost predicate Written(t: text, lead: text, numerals: seq<text>, trail: text) {
    && AllSpace(lead) && AllSpace(trail)
    && numerals != [] && Numerals(numerals)
    && t == lead + DotJoin(numerals) + trail
  }

  lemma {:induction false} ParseTrail(t: text, i: nat, state: State, arcs: seq<arc>)
    requires i <= |t| && AllSpace(t[i..])
    requires state.AfterValue? || state.TailSpace?
    ensures ParseFrom(t, i, state, arcs) == Some(arcs)
    decreases |t| - i
  {
    if i < |t| {
      assert t[i] == t[i..][0];
      assert t[i + 1..] == t[i..][1..];
      ParseTrail(t, i + 1, TailSpace, arcs);
    }
  }

  /** A numeral where one is expected is captured whole. */
  lemma ParseNumeral(t: text, i: nat, state: State, arcs: seq<arc>, numeral: text)
    requires i + |numeral| <= |t| && t[i..i + |numeral|] == numeral
    requires IsNumeral(numeral) && NumVal(numeral) <= ARC_MAX
    requires i + |numeral| < |t| ==> !IsDigit(t[i + |numeral|])
    requires state.LeadSpace? || state.WaitDigits?
    ensures ParseFrom(t, i, state, arcs) == ParseFrom(t, i + |numeral|, AfterValue, arcs + [NumVal(numeral) as arc])
  {
    hide NumVal, DigitRun;
    var rest := t[i..];
    assert rest[..|numeral|] == numeral;
    assert rest[0] == numeral[0];
    assert i + |numeral| < |t| ==> rest[|numeral|] == t[i + |numeral|];
    DigitRunIs(rest, |numeral|);
  }

  lemma {:induction false} ParseJoined(t: text, i: nat, state: State, arcs: seq<arc>, numerals: seq<text>, trail: text)
    requires i <= |t| && numerals != [] && Numerals(numerals) && AllSpace(trail)
    requires t[i..] == DotJoin(numerals) + trail
    requires state.LeadSpace? || state.WaitDigits?
    ensures ParseFrom(t, i, state, arcs) == Some(arcs + Values(numerals))
    decreases |numerals|
  {
    hide ParseFrom, NumVal, AllSpace, DotJoin;
    var first := numerals[0];
    var v: arc := NumVal(first);
    var j := i + |first|;
    JoinStarts(t, i, numerals, trail);
    ParseNumeral(t, i, state, arcs, first);
    if |numerals| == 1 {
      ParseTrail(t, j, AfterValue, arcs + [v]);
      assert numerals[1..] == [] && Values(numerals) == [v];
    } else {
      ParseDot(t, j, arcs + [v]);
      ParseJoined(t, j + 1, WaitDigits, arcs + [v], numerals[1..], trail);
      assert Values(numerals) == [v] + Values(numerals[1..]);
      assert arcs + [v] + Values(numerals[1..]) == arcs + Values(numerals);
    }
  }

  lemma ParseDot(t: text, j: nat, arcs: seq<arc>)
    requires j < |t| && t[j] == DOT
    ensures ParseFrom(t, j, AfterValue, arcs) == ParseFrom(t, j + 1, WaitDigits, arcs)
  {
  }

  /** A joined text is its first numeral, then the end of the numbers or a dot and the others. */
  lemma JoinStarts(t: text, i: nat, numerals: seq<text>, trail: text)
    requires i <= |t| && numerals != [] && AllSpace(trail)
    requires t[i..] == DotJoin(numerals) + trail
    ensures var j := i + |numerals[0]|;
            && j <= |t| && t[i..j] == numerals[0]
            && (j < |t| ==> !IsDigit(t[j]))
            && if |numerals| == 1 then t[j..] == trail
               else j < |t| && t[j] == DOT && t[j + 1..] == DotJoin(numerals[1..]) + trail
  {
    hide AllSpace, DotJoin;
    var first := numerals[0];
    if |numerals| == 1 {
      JoinOne(numerals);
      Front(t, i, first, trail);
      SpaceIsNoDigit(t, i + |first|);
    } else {
      DotJoinCons(numerals, trail);
      MoreStarts(t, i, first, DotJoin(numerals[1..]) + trail);
    }
  }

  lemma JoinOne(numerals: seq<text>)
    requires |numerals| == 1
    ensures DotJoin(numerals) == numerals[0]
  {
  }

  lemma MoreStarts(t: text, i: nat, first: text, others: text)
    requires i <= |t| && t[i..] == first + ([DOT] + others)
    ensures var j := i + |first|;
            j < |t| && t[i..j] == first && t[j] == DOT && t[j + 1..] == others
  {
    var j := i + |first|;
    Front(t, i, first, [DOT] + others);
    AfterDot(t, j, others);
  }

  lemma AfterDot(t: text, j: nat, others: text)
    requires j < |t| && t[j..] == [DOT] + others
    ensures t[j + 1..] == others
  {
    assert t[j + 1..] == t[j..][1..];
  }

  lemma DotJoinCons(numerals: seq<text>, trail: text)
    requires |numerals| > 1
    ensures DotJoin(numerals) + trail == numerals[0] + ([DOT] + (DotJoin(numerals[1..]) + trail))
  {
    assert DotJoin(numerals) == numerals[0] + ([DOT] + DotJoin(numerals[1..]));
    Reassociate(numerals[0], [DOT], DotJoin(numerals[1..]), trail);
  }

  /** The front of what is left, and what is behind it. */
  lemma Front(t: text, i: nat, x: text, y: text)
    requires i <= |t| && t[i..] == x + y
    ensures var j := i + |x|; j <= |t| && t[i..j] == x && t[j..] == y && (y != [] ==> j < |t| && t[j] == y[0])
  {
    var j := i + |x|;
    assert t[i..j] == t[i..][..|x|];
    DropTwice(t, i, |x|);
  }

  lemma SpaceIsNoDigit(t: text, j: nat)
    requires j <= |t| && AllSpace(t[j..])
    ensures j < |t| ==> !IsDigit(t[j])
  {
    if j < |t| { assert t[j] == t[j..][0]; }
  }

  lemma {:induction false} ParseLead(t: text, i: nat, lead: text)
    requires i + |lead| <= |t| && AllSpace(lead) && t[i..i + |lead|] == lead
    ensures ParseFrom(t, i, LeadSpace, []) == ParseFrom(t, i + |lead|, LeadSpace, [])
    decreases |lead|
  {
    if lead != [] {
      assert t[i] == t[i..i + |lead|][0];
      assert t[i + 1..i + |lead|] == lead[1..];
      ParseLead(t, i + 1, lead[1..]);
    }
  }

  /** Every text of the form is accepted, with exactly its numbers. */
  lemma WrittenIsParsed(t: text, lead: text, numerals: seq<text>, trail: text)
    requires Written(t, lead, numerals, trail)
    ensures Parse(t) == Some(Values(numerals)) && Values(numerals) != []
  {
    hide ParseFrom, DotJoin;
    assert t[0..|lead|] == lead;
    ParseLead(t, 0, lead);
    assert t[|lead|..] == DotJoin(numerals) + trail;
    ParseJoined(t, |lead|, LeadSpace, [], numerals, trail);
    assert [] + Values(numerals) == Values(numerals);
  }

  /** What is left of an accepted text after a value: dotted numerals, then spaces. */
  ghost predicate Tail(rest: text, numerals: seq<text>, trail: text) {
    && Numerals(numerals) && AllSpace(trail)
    && rest == (if numerals == [] then [] else [DOT] + DotJoin(numerals)) + trail
  }

  lemma {:induction false} ParsedTail(t: text, i: nat, state: State, arcs: seq<arc>)
    returns (numerals: seq<text>, trail: text)
    requires i <= |t| && (state.AfterValue? || state.TailSpace?)
    requires ParseFrom(t, i, state, arcs).Some?
    ensures Tail(t[i..], numerals, trail)
    ensures ParseFrom(t, i, state, arcs) == Some(arcs + Values(numerals))
    ensures state.TailSpace? ==> numerals == []
    decreases |t| - i, 0
  {
    hide NumVal, DigitRun, DotJoin, AllSpace, Values;
    if i == |t| {
      numerals, trail := [], [];
      TailEnds(t, i, arcs);
    } else if IsSpace(t[i]) {
      numerals, trail := ParsedTail(t, i + 1, TailSpace, arcs);
      assert numerals == [];
      TailSpaced(t, i, trail);
      trail := [t[i]] + trail;
    } else {
      assert t[i] == DOT && state.AfterValue?;
      numerals, trail := ParsedNumbers(t, i + 1, WaitDigits, arcs);
      assert t[i..] == [DOT] + t[i + 1..];
      assert t[i..] == [DOT] + DotJoin(numerals) + trail;
    }
  }

  lemma TailEnds(t: text, i: nat, arcs: seq<arc>)
    requires i == |t|
    ensures Tail(t[i..], [], []) && arcs + Values([]) == arcs
  {
  }

  lemma TailSpaced(t: text, i: nat, trail: text)
    requires i < |t| && IsSpace(t[i]) && Tail(t[i + 1..], [], trail)
    ensures Tail(t[i..], [], [t[i]] + trail)
  {
    assert t[i..] == [t[i]] + t[i + 1..];
    assert [] + ([t[i]] + trail) == [t[i]] + trail;
    assert [] + trail == trail;
  }

  lemma {:induction false} ParsedNumbers(t: text, i: nat, state: State, arcs: seq<arc>)
    returns (numerals: seq<text>, trail: text)
    requires i < |t| ==> !IsSpace(t[i])
    requires i <= |t| && (state.WaitDigits? || (state.LeadSpace? && i < |t|))
    requires ParseFrom(t, i, state, arcs).Some?
    ensures numerals != [] && Numerals(numerals) && AllSpace(trail)
    ensures t[i..] == DotJoin(numerals) + trail
    ensures ParseFrom(t, i, state, arcs) == Some(arcs + Values(numerals))
    decreases |t| - i, 1
  {
    hide ParseFrom, NumVal, IsNumeral, DigitRun, DotJoin, AllSpace, Values, Numerals;
    var run, v := ParsedRun(t, i, state, arcs);
    var first, more := t[i..][..run], [];
    more, trail := ParsedTail(t, i + run, AfterValue, arcs + [v]);
    numerals := [first] + more;
    assert t[i..][run..] == t[i + run..];
    NumeralInFront(t[i..], run, more, trail);
    ValuesInFront(first, v, more);
    Associative(arcs, [v], Values(more));
  }

  /** A number starts where the parser waits for one. */
  lemma ParsedRun(t: text, i: nat, state: State, arcs: seq<arc>) returns (run: nat, v: arc)
    requires i < |t| ==> !IsSpace(t[i])
    requires i <= |t| && (state.WaitDigits? || (state.LeadSpace? && i < |t|))
    requires ParseFrom(t, i, state, arcs).Some?
    ensures 0 < run && i + run <= |t| && IsNumeral(t[i..][..run]) && v == NumVal(t[i..][..run])
    ensures ParseFrom(t, i, state, arcs) == ParseFrom(t, i + run, AfterValue, arcs + [v])
  {
    hide NumVal;
    run := DigitRun(t[i..]);
    v := NumVal(t[i..][..run]);
  }

  lemma NumeralInFront(s: text, run: nat, more: seq<text>, trail: text)
    requires run <= |s| && Tail(s[run..], more, trail)
    ensures s == DotJoin([s[..run]] + more) + trail
  {
    var first := s[..run];
    assert s == first + s[run..];
    assert ([first] + more)[1..] == more;
    if more == [] {
      assert [] + trail == trail;
    } else {
      Associative(first, [DOT] + DotJoin(more), trail);
    }
  }

  lemma ValuesInFront(first: text, v: arc, more: seq<text>)
    requires IsNumeral(first) && NumVal(first) == v && Numerals(more)
    ensures Numerals([first] + more) && Values([first] + more) == [v] + Values(more)
  {
    hide NumVal;
    assert ([first] + more)[1..] == more;
  }

  /** Every text accepted with a positive count has the form. */
  lemma {:induction false} ParsedIsWritten(t: text, i: nat)
    returns (lead: text, numerals: seq<text>, trail: text)
    requires i <= |t|
    requires ParseFrom(t, i, LeadSpace, []).Some? && ParseFrom(t, i, LeadSpace, []).value != []
    ensures Written(t[i..], lead, numerals, trail)
    ensures ParseFrom(t, i, LeadSpace, []) == Some(Values(numerals))
    decreases |t| - i
  {
    hide NumVal, DigitRun, DotJoin;
    if IsSpace(t[i]) {
      lead, numerals, trail := ParsedIsWritten(t, i + 1);
      lead := [t[i]] + lead;
      assert t[i..] == [t[i]] + t[i + 1..];
      assert t[i..] == lead + DotJoin(numerals) + trail;
    } else {
      lead := [];
      numerals, trail := ParsedNumbers(t, i, LeadSpace, []);
      assert t[i..] == lead + DotJoin(numerals) + trail;
      assert [] + Values(numerals) == Values(numerals);
    }
  }

  /** A positive count is returned exactly for spaces, dotted numerals of at most 2^32-1 each, spaces. */
  lemma AcceptedIffWritten(t: text)
    ensures (Parse(t).Some? && Parse(t).value != [])
         == (exists lead, numerals, trail :: Written(t, lead, numerals, trail))
  {
    hide ParseFrom, DotJoin;
    if Parse(t).Some? && Parse(t).value != [] {
      var lead, numerals, trail := ParsedIsWritten(t, 0);
      assert t[0..] == t;
      assert Written(t, lead, numerals, trail);
    }
    if exists lead, numerals, trail :: Written(t, lead, numerals, trail) {
      var lead, numerals, trail :| Written(t, lead, numerals, trail);
      WrittenIsParsed(t, lead, numerals, trail);
    }
  }

  // ----- printing, then parsing ---------------------------------------------------------------

  function Decimals(arcs: seq<arc>): (numerals: seq<text>)
    ensures |numerals| == |arcs|
  {
    if arcs == [] then [] else [Dec(arcs[0])] + Decimals(arcs[1..])
  }

  lemma {:induction false} DecimalsAreNumerals(arcs: seq<arc>)
    ensures Numerals(Decimals(arcs)) && Values(Decimals(arcs)) == arcs
    ensures arcs != [] ==> DotJoin(Decimals(arcs)) == OidString(arcs)
  {
    if arcs != [] {
      var rest := arcs[1..];
      DecimalsAreNumerals(rest);
      NumValDec(arcs[0]);
      assert Decimals(arcs)[1..] == Decimals(rest);
      assert arcs == [arcs[0]] + rest;
      if rest != [] {
        assert Dotted(rest) == [DOT] + Dec(rest[0]) + Dotted(rest[1..]) == [DOT] + OidString(rest);
      }
    }
  }

  /** The printed form of any non-empty arc list is parsed back to it. */
  lemma TextRoundTrip(arcs: seq<arc>)
    requires arcs != []
    ensures Parse(OidString(arcs)) == Some(arcs)
  {
    hide DotJoin, OidString;
    DecimalsAreNumerals(arcs);
    var t := OidString(arcs);
    assert t == [] + DotJoin(Decimals(arcs)) + [];
    WrittenIsParsed(t, [], Decimals(arcs), []);
  }

  datatype BodyResult = Consumed | BrokenEncoding | Ignored | SystemFailure

  /** `OBJECT_IDENTIFIER__xer_body_decode`: ten slots first, then as many as were counted. */
  method XerBodyDecode(st: ObjectId, chunk: text) returns (r: BodyResult)
    requires st.Valid()
    modifies st
    ensures st.Valid()
    ensures match Parse(chunk)
            case None => r == BrokenEncoding
            case Some(arcs) =>
              if arcs == [] then r == Ignored
              else if !ValidArcs(arcs) then r == SystemFailure
              else r == Consumed && st.buf != null && st.Contents() == Encode(arcs)
  {
    hide Parse, ValidArcs;
    var arcs := new arc[10](_ => 0);
    var num := ParseArcs(chunk, arcs);
    if num < 0 { return BrokenEncoding; }
    if num == 0 { return Ignored; }
    if num > arcs.Length {
      arcs := new arc[num](_ => 0);
      var again := ParseArcs(chunk, arcs);
      if again != num { return SystemFailure; }
    }
    assert arcs[..num] == Parse(chunk).value;
    var ok := SetArcs(st, arcs[..num]);
    r := if ok then Consumed else SystemFailure;
  }
}
