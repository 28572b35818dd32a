/**
  What the XML tokenizer takes for a comment and for a tag, and what a tag is taken for,
  told by the text itself: brackets, quotes, the name and what may stand behind it.
 */
module XerTags {
  import opened Octets
  import opened Decimal
  import opened OctetMeaning
  import opened OctetText
  import opened XerStream

  // ----- what a tag is taken for ---------------------------------------------------------

  /** A name no tag can mistake: no blanks, brackets, slashes or NULs in it. */
  predicate CleanName(name: text) {
    name != [] && forall i :: 0 <= i < |name| ==> name[i] !in BLANKS && name[i] !in [0, SLASH, LESS, GREATER]
  }

  /** What may follow the name: nothing, or a blank and anything. */
  predicate Behind(tail: text) {
    tail == [] || tail[0] in BLANKS
  }

  predicate EndsInSlash(t: text) {
    t != [] && t[|t| - 1] == SLASH
  }

  predicate Opens(tag: text, name: text, tail: text) {
    Behind(tail) && !EndsInSlash(tail) && tag == ['<' as int] + (name + tail) + ['>' as int]
  }

  predicate Empties(tag: text, name: text, tail: text) {
    Behind(tail) && tag == ['<' as int] + (name + tail) + ['/' as int, '>' as int]
  }

  predicate Closes(tag: text, name: text, tail: text) {
    Behind(tail) && !EndsInSlash(tail) && tag == ['<' as int, '/' as int] + (name + tail) + ['>' as int]
  }

  lemma {:induction false} NameMatched(body: text, name: text, i: nat, ct: TagCheck)
    requires i <= |body| && i <= |name| && body[..i] == name[..i] && CleanName(name)
    ensures MatchName(body, name, i, ct)
         == if name <= body && Behind(body[|name|..]) then ct
            else if name + [0] <= body then Broken else Unknown(ct)
    decreases |body| - i
  {
    if i < |body| {
      BlankIs(body[i]);
      if i < |name| && body[i] == name[i] {
        assert body[..i + 1] == body[..i] + [body[i]] && name[..i + 1] == name[..i] + [name[i]];
        NameMatched(body, name, i + 1, ct);
      }
    }
  }

  /** A tag's brackets around its body. */
  lemma Framed(front: text, body: text, back: text)
    ensures var tag := front + body + back;
            && |tag| == |front| + |body| + |back|
            && tag[|front|..|tag| - |back|] == body
            && (forall i :: 0 <= i < |front| ==> tag[i] == front[i])
            && (forall i :: 0 <= i < |body| ==> tag[|front| + i] == body[i])
            && (forall i :: 0 <= i < |back| ==> tag[|front| + |body| + i] == back[i])
  {
    var tag := front + body + back;
    assert tag[|front|..|tag| - |back|] == body;
  }

  lemma BodyNamed(body: text, name: text, ct: TagCheck)
    requires CleanName(name)
    ensures Named(body, name, ct)
         == if name <= body && Behind(body[|name|..]) then ct
            else if name + [0] <= body then Broken else Unknown(ct)
  {
    hide MatchName;
    assert body[..0] == name[..0];
    NameMatched(body, name, 0, ct);
  }

  /** The tag is what its text says it is: of that name, of another, or broken. */
  lemma CheckTagIs(tag: text, name: text)
    requires CleanName(name)
    ensures CheckTag(tag, name) == Opening <==> (exists tail :: Opens(tag, name, tail))
    ensures CheckTag(tag, name) == Both <==> (exists tail :: Empties(tag, name, tail))
    ensures CheckTag(tag, name) == Closing <==> (exists tail :: Closes(tag, name, tail))
  {
    hide Named;
    OpeningRead(tag, name);
    EmptyRead(tag, name);
    ClosingRead(tag, name);
    TagFound(tag, name);
  }

  lemma OpeningRead(tag: text, name: text)
    requires CleanName(name)
    ensures (exists tail :: Opens(tag, name, tail)) ==> CheckTag(tag, name) == Opening
  {
    hide Named, CleanName;
    if tail :| Opens(tag, name, tail) {
      NamePlain(name);
      var body := name + tail;
      Framed([LESS], body, [GREATER]);
      BodyNamed(body, name, Opening);
      assert body[|name|..] == tail && body[..|name|] == name;
      assert tag[1] == name[0];
      assert body[|body| - 1] == if tail == [] then name[|name| - 1] else tail[|tail| - 1];
    }
  }

  lemma NamePlain(name: text)
    requires CleanName(name)
    ensures name != [] && name[0] != SLASH && name[|name| - 1] != SLASH
  {
  }

  lemma EmptyRead(tag: text, name: text)
    requires CleanName(name)
    ensures (exists tail :: Empties(tag, name, tail)) ==> CheckTag(tag, name) == Both
  {
    hide Named, CleanName;
    if tail :| Empties(tag, name, tail) {
      NamePlain(name);
      var body := name + tail;
      Framed([LESS], body, [SLASH, GREATER]);
      BodyNamed(body, name, Both);
      assert body[|name|..] == tail && body[..|name|] == name;
      assert tag[1] == name[0];
      assert tag[1..|tag| - 1] == body + [SLASH];
      assert (body + [SLASH])[..|body|] == body;
    }
  }

  lemma ClosingRead(tag: text, name: text)
    requires CleanName(name)
    ensures (exists tail :: Closes(tag, name, tail)) ==> CheckTag(tag, name) == Closing
  {
    hide Named, CleanName;
    if tail :| Closes(tag, name, tail) {
      NamePlain(name);
      var body := name + tail;
      Framed([LESS, SLASH], body, [GREATER]);
      BodyNamed(body, name, Closing);
      assert body[|name|..] == tail && body[..|name|] == name;
      assert body[|body| - 1] == if tail == [] then name[|name| - 1] else tail[|tail| - 1];
    }
  }

  lemma TagFound(tag: text, name: text)
    requires CleanName(name)
    ensures CheckTag(tag, name) == Opening ==> (exists tail :: Opens(tag, name, tail))
    ensures CheckTag(tag, name) == Both ==> (exists tail :: Empties(tag, name, tail))
    ensures CheckTag(tag, name) == Closing ==> (exists tail :: Closes(tag, name, tail))
  {
    hide Named, CleanName;
    var n := |tag|;
    if n >= 2 && tag[0] == LESS && tag[n - 1] == GREATER {
      if tag[1] == SLASH {
        if n >= 3 { ClosingFound(tag, name); }
      } else {
        OpeningFound(tag, name);
      }
    }
  }

  lemma ClosingFound(tag: text, name: text)
    requires CleanName(name) && |tag| >= 3 && tag[0] == LESS && tag[1] == SLASH && tag[|tag| - 1] == GREATER
    ensures CheckTag(tag, name) == Closing ==> (exists tail :: Closes(tag, name, tail))
    ensures CheckTag(tag, name) != Opening && CheckTag(tag, name) != Both
  {
    hide Named, CleanName;
    var body := tag[2..|tag| - 1];
    BodyNamed(body, name, Closing);
    if CheckTag(tag, name) == Closing {
      var tail := body[|name|..];
      TailEnds(name, tail, body);
      assert Closes(tag, name, tail);
    }
  }

  lemma TailEnds(name: text, tail: text, body: text)
    requires name <= body && tail == body[|name|..]
    ensures body == name + tail && (EndsInSlash(tail) ==> EndsInSlash(body))
  {
  }

  lemma OpeningFound(tag: text, name: text)
    requires CleanName(name) && |tag| >= 2 && tag[0] == LESS && tag[1] != SLASH && tag[|tag| - 1] == GREATER
    ensures CheckTag(tag, name) == Opening ==> (exists tail :: Opens(tag, name, tail))
    ensures CheckTag(tag, name) == Both ==> (exists tail :: Empties(tag, name, tail))
    ensures CheckTag(tag, name) != Closing
  {
    hide Named, CleanName;
    var body := tag[1..|tag| - 1];
    assert tag == [LESS] + body + [GREATER];
    if EndsInSlash(body) {
      EmptyFound(tag, body, name);
    } else {
      BodyNamed(body, name, Opening);
      if CheckTag(tag, name) == Opening {
        var tail := body[|name|..];
        TailEnds(name, tail, body);
        assert Opens(tag, name, tail);
      }
    }
  }

  lemma EmptyFound(tag: text, body: text, name: text)
    requires CleanName(name) && tag == [LESS] + body + [GREATER] && EndsInSlash(body) && body[0] != SLASH
    ensures CheckTag(tag, name) == Both ==> (exists tail :: Empties(tag, name, tail))
    ensures CheckTag(tag, name) != Closing && CheckTag(tag, name) != Opening
  {
    hide Named, CleanName;
    var inner := body[..|body| - 1];
    assert tag[1..|tag| - 1] == body && tag[1] == body[0];
    BodyNamed(inner, name, Both);
    if CheckTag(tag, name) == Both {
      var tail := inner[|name|..];
      TailEnds(name, tail, inner);
      assert body == inner + [SLASH];
      assert tag == [LESS] + inner + [SLASH, GREATER];
      assert Empties(tag, name, tail);
    }
  }

  /** A tag is broken without its brackets, with slashes at both ends, or with a NUL behind the name. */
  ghost predicate BrokenFor(tag: text, name: text) {
    || |tag| < 2 || tag[0] != LESS || tag[|tag| - 1] != GREATER
    || (exists t :: tag == [LESS, SLASH] + t + [SLASH, GREATER])
    || (exists t :: tag == [LESS] + (name + [0] + t) + [GREATER])
    || (exists t :: tag == [LESS, SLASH] + (name + [0] + t) + [GREATER])
  }

  lemma BrokenIs(tag: text, name: text)
    requires CleanName(name)
    ensures CheckTag(tag, name) == Broken <==> BrokenFor(tag, name)
  {
    hide Named, CleanName;
    var n := |tag|;
    NamePlain(name);
    if n >= 2 && tag[0] == LESS && tag[n - 1] == GREATER {
      if tag[1] == SLASH {
        BrokenClosing(tag, name);
      } else {
        BrokenOpening(tag, name);
      }
    }
  }

  lemma NulBehind(body: text, name: text)
    ensures name + [0] <= body <==> exists t :: body == name + [0] + t
  {
    if name + [0] <= body { assert body == name + [0] + body[|name| + 1..]; }
  }

  lemma BrokenClosing(tag: text, name: text)
    requires CleanName(name) && |tag| >= 3 && tag[0] == LESS && tag[1] == SLASH && tag[|tag| - 1] == GREATER
    ensures CheckTag(tag, name) == Broken <==> BrokenFor(tag, name)
  {
    hide Named, CleanName;
    var body := tag[2..|tag| - 1];
    NamePlain(name);
    assert tag == [LESS, SLASH] + body + [GREATER];
    BodyNamed(body, name, Closing);
    NulBehind(body, name);
    if EndsInSlash(body) {
      assert body == body[..|body| - 1] + [SLASH];
      assert tag == [LESS, SLASH] + body[..|body| - 1] + [SLASH, GREATER];
    }
    forall t | tag == [LESS, SLASH] + t + [SLASH, GREATER] ensures EndsInSlash(body) {
      assert body == t + [SLASH];
    }
    forall t | tag == [LESS, SLASH] + (name + [0] + t) + [GREATER] ensures body == name + [0] + t {
      Framed([LESS, SLASH], name + [0] + t, [GREATER]);
    }
  }

  lemma BrokenOpening(tag: text, name: text)
    requires CleanName(name) && |tag| >= 2 && tag[0] == LESS && tag[1] != SLASH && tag[|tag| - 1] == GREATER
    ensures CheckTag(tag, name) == Broken <==> BrokenFor(tag, name)
  {
    hide Named, CleanName;
    var body := tag[1..|tag| - 1];
    NamePlain(name);
    assert tag == [LESS] + body + [GREATER];
    NulBehind(body, name);
    BodyNamed(body, name, Opening);
    if EndsInSlash(body) {
      var inner := body[..|body| - 1];
      BodyNamed(inner, name, Both);
      NulInside(body, inner, name);
    }
    forall t | tag == [LESS] + (name + [0] + t) + [GREATER] ensures body == name + [0] + t {
      Framed([LESS], name + [0] + t, [GREATER]);
    }
  }

  lemma NulInside(body: text, inner: text, name: text)
    requires body == inner + [SLASH]
    ensures name + [0] <= body <==> name + [0] <= inner
  {
    if name + [0] <= body { assert body[|name|] == (name + [0])[|name|]; }
  }

  /** An empty tag of another name. */
  lemma UnknownIs(tag: text, name: text)
    ensures CheckTag(tag, name) == UnknownBoth <==>
              && |tag| >= 3 && tag[0] == LESS && tag[1] != SLASH && tag[|tag| - 2] == SLASH && tag[|tag| - 1] == GREATER
              && CheckTag(tag, name) != Both && CheckTag(tag, name) != Broken
  {
    hide MatchName;
    if |tag| >= 2 && tag[0] == LESS && tag[|tag| - 1] == GREATER {
      KindKept(tag[1..|tag| - 1], name);
      if |tag| >= 3 {
        KindKept(tag[1..|tag| - 1][..|tag| - 3], name);
        KindKept(tag[2..|tag| - 1], name);
      }
    }
  }

  /** The name decides between known and unknown, never the kind. */
  lemma KindKept(body: text, name: text)
    ensures Named(body, name, Both) in {Both, UnknownBoth, Broken}
    ensures Named(body, name, Opening) in {Opening, UnknownOpening, Broken}
    ensures Named(body, name, Closing) in {Closing, UnknownClosing, Broken}
  {
    MatchKind(body, name, 0, Both);
    MatchKind(body, name, 0, Opening);
    MatchKind(body, name, 0, Closing);
  }

  lemma {:induction false} MatchKind(body: text, name: text, i: nat, ct: TagCheck)
    requires i <= |body| && i <= |name|
    ensures MatchName(body, name, i, ct) in {ct, Unknown(ct), Broken}
    decreases |body| - i
  {
    if i < |body| && i < |name| && body[i] == name[i] {
      MatchKind(body, name, i + 1, ct);
    }
  }

  // ----- comments ------------------------------------------------------------------------

  const DASHES: text := ['-' as int, '-' as int, '>' as int]

  /** `-->` stands at place i. */
  predicate CloseAt(t: text, i: nat) {
    i + 3 <= |t| && t[i] == '-' as int && t[i + 1] == '-' as int && t[i + 2] == '>' as int
  }

  /** The text ends in `-->` and holds it nowhere before. */
  ghost predicate EndsComment(t: text) {
    |t| >= 3 && CloseAt(t, |t| - 3) && forall i: nat :: CloseAt(t, i) ==> i == |t| - 3
  }

  /** The dashes that a state of the tokenizer stands for. */
  function Seen(state: Lex): text
    requires InComment(state)
  {
    if state == CloseRight then [DASH, DASH] else if state == CloseDash2 then [DASH] else []
  }

  lemma EndsWithin(t: text, d: nat)
    requires EndsComment(t) && d <= |t| - 3
    ensures EndsComment(t[d..])
  {
    var u := t[d..];
    forall i: nat | CloseAt(u, i) ensures i == |u| - 3 {
      assert CloseAt(t, d + i);
    }
    assert CloseAt(t, |t| - 3);
  }

  /** How far a character moves the dashes on. */
  lemma CommentStep(state: Lex, c: octet, rest: text)
    requires InComment(state) && rest != [] && EndsComment(Seen(state) + [c] + rest)
    ensures var a := Act(state, c, false);
            a.Go? && InComment(a.next) && EndsComment(Seen(a.next) + rest)
  {
    hide EndsComment;
    var t := Seen(state) + [c] + rest;
    NotYet(state, c, rest);
    var u := Seen(Act(state, c, false).next) + rest;
    var d := |t| - |u|;
    assert t[d..] == u;
    EndsWithin(t, d);
  }

  lemma NotYet(state: Lex, c: octet, rest: text)
    requires InComment(state) && rest != [] && EndsComment(Seen(state) + [c] + rest)
    ensures var a := Act(state, c, false);
            a.Go? && InComment(a.next) && |Seen(a.next) + rest| >= 3
  {
    var t, k := Seen(state) + [c] + rest, |Seen(state)|;
    assert t[k] == c;
    assert CloseAt(t, |t| - 3);
    if state == CloseRight { assert CloseAt(t, 0) ==> c == GREATER; }
  }

  lemma CommentLast(state: Lex, c: octet)
    requires InComment(state) && EndsComment(Seen(state) + [c])
    ensures state == CloseRight && c == GREATER
  {
    var t := Seen(state) + [c];
    assert t[|t| - 1] == c;
  }

  /** Inside a comment the token ends with the first `-->`. */
  lemma {:induction false} CommentEnds(state: Lex, buf: text, p: nat, n: nat)
    requires InComment(state) && 0 < p < n <= |buf| && EndsComment(Seen(state) + buf[p..n])
    ensures Scan(state, buf, p) == Some(Token(CommentChunk, n, Text))
    decreases n - p
  {
    hide EndsComment, Seen;
    var c, rest := buf[p], buf[p + 1..n];
    assert buf[p..n] == [c] + rest;
    assert Seen(state) + buf[p..n] == Seen(state) + [c] + rest;
    if rest == [] {
      assert Seen(state) + [c] + rest == Seen(state) + [c];
      CommentLast(state, c);
    } else {
      CommentStep(state, c, rest);
      CommentEnds(Act(state, c, false).next, buf, p + 1, n);
    }
  }

  /** `<!--`, text in which `-->` does not stand, and `-->`: one token, whatever follows. */
  lemma CommentToken(body: text, rest: text)
    requires EndsComment(body + DASHES)
    ensures var t := [LESS, '!' as int, '-' as int, '-' as int] + (body + DASHES);
            NextToken(Text, t + rest) == Some(Token(CommentChunk, |t|, Text))
  {
    hide EndsComment, Scan;
    var t := [LESS, '!' as int, '-' as int, '-' as int] + (body + DASHES);
    var buf := t + rest;
    assert buf[4..|t|] == body + DASHES && [] + (body + DASHES) == body + DASHES;
    CommentEnds(Comment, buf, 4, |t|);
    GoesOn(Dash2, buf, 3, Comment);
    GoesOn(Dash1, buf, 2, Dash2);
    GoesOn(TagStart, buf, 1, Dash1);
    StartsTag(buf);
  }

  lemma StartsTag(buf: text)
    requires buf != [] && buf[0] == LESS
    ensures NextToken(Text, buf) == Scan(TagStart, buf, 1)
  {
  }

  // ----- tags with attributes ---------------------------------------------------------------

  /** What a tag is made of: plain text, a quoted value, a value without quotes that a blank ends. */
  datatype Part = Plain(t: text) | QuotedValue(gap: text, value: text) | BareValue(gap: text, first: octet, value: text, end: octet)

  predicate WellFormed(p: Part) {
    match p
    case Plain(t) => forall i :: 0 <= i < |t| ==> t[i] !in ['<' as int, '>' as int, '=' as int]
    case QuotedValue(gap, value) => AllIn(gap, BLANKS) && '"' as int !in value
    case BareValue(gap, first, value, end) =>
      && AllIn(gap, BLANKS) && first !in BLANKS && first !in ['"' as int, '>' as int]
      && (forall i :: 0 <= i < |value| ==> value[i] !in BLANKS && value[i] != GREATER) && end in BLANKS
  }

  predicate AllIn(t: text, allowed: text) {
    forall i :: 0 <= i < |t| ==> t[i] in allowed
  }

  function PartText(p: Part): text {
    match p
    case Plain(t) => t
    case QuotedValue(gap, value) => ['=' as int] + gap + ['"' as int] + value + ['"' as int]
    case BareValue(gap, first, value, end) => ['=' as int] + gap + [first] + value + [end]
  }

  function PartsText(parts: seq<Part>): text {
    if parts == [] then [] else PartText(parts[0]) + PartsText(parts[1..])
  }

  /** Characters that leave the tokenizer in its state. */
  lemma {:induction false} Stays(state: Lex, buf: text, p: nat, n: nat)
    requires 0 < p && p + n <= |buf|
    requires forall i :: p <= i < p + n ==> Act(state, buf[i], false) == Go(state)
    ensures Scan(state, buf, p) == Scan(state, buf, p + n)
    decreases n
  {
    if n > 0 {
      Stays(state, buf, p + 1, n - 1);
    }
  }

  lemma GoesOn(state: Lex, buf: text, p: nat, next: Lex)
    requires 0 < p < |buf| && Act(state, buf[p], false) == Go(next)
    ensures Scan(state, buf, p) == Scan(next, buf, p + 1)
  {
  }

  /** Where the characters of a quoted value stand. */
  lemma QuotedAt(gap: text, value: text)
    ensures var t, q := PartText(QuotedValue(gap, value)), 1 + |gap|;
            && |t| == q + 1 + |value| + 1 && t[0] == EQUAL && t[q] == QUOTE && t[q + 1 + |value|] == QUOTE
            && (forall i :: 0 <= i < |gap| ==> t[1 + i] == gap[i])
            && (forall i :: 0 <= i < |value| ==> t[q + 1 + i] == value[i])
  {
  }

  lemma QuotedScanned(gap: text, value: text, buf: text, p: nat)
    requires WellFormed(QuotedValue(gap, value)) && 0 < p
    requires p + |PartText(QuotedValue(gap, value))| <= |buf|
    requires buf[p..p + |PartText(QuotedValue(gap, value))|] == PartText(QuotedValue(gap, value))
    ensures Scan(TagBody, buf, p) == Scan(TagBody, buf, p + |PartText(QuotedValue(gap, value))|)
  {
    hide Scan, PartText;
    var t, q := PartText(QuotedValue(gap, value)), p + 1 + |gap|;
    QuotedAt(gap, value);
    SliceAt(buf, p, t);
    assert buf[p + 0] == t[0] && buf[p + (1 + |gap|)] == QUOTE && buf[p + (1 + |gap| + 1 + |value|)] == QUOTE;
    GoesOn(TagBody, buf, p, QuoteWait);
    forall i | p + 1 <= i < p + 1 + |gap| ensures Act(QuoteWait, buf[i], false) == Go(QuoteWait) {
      var k := i - p - 1;
      assert buf[p + (1 + k)] == t[1 + k] == gap[k];
      BlankIs(buf[i]);
    }
    Stays(QuoteWait, buf, p + 1, |gap|);
    GoesOn(QuoteWait, buf, q, Quoted);
    forall i | q + 1 <= i < q + 1 + |value| ensures Act(Quoted, buf[i], false) == Go(Quoted) {
      var k := i - q - 1;
      assert buf[p + (1 + |gap| + 1 + k)] == t[1 + |gap| + 1 + k] == value[k];
    }
    Stays(Quoted, buf, q + 1, |value|);
    GoesOn(Quoted, buf, q + 1 + |value|, TagBody);
  }

  lemma SliceAt(buf: text, p: nat, t: text)
    requires p + |t| <= |buf| && buf[p..p + |t|] == t
    ensures forall i :: 0 <= i < |t| ==> buf[p + i] == t[i]
  {
    forall i | 0 <= i < |t| ensures buf[p + i] == t[i] {
      assert buf[p..p + |t|][i] == t[i];
    }
  }

  /** Where the characters of a value without quotes stand. */
  lemma BareAt(part: Part)
    requires part.BareValue?
    ensures var t, q := PartText(part), 1 + |part.gap|;
            && |t| == q + 1 + |part.value| + 1 && t[0] == EQUAL && t[q] == part.first
            && t[q + 1 + |part.value|] == part.end
            && (forall i :: 0 <= i < |part.gap| ==> t[1 + i] == part.gap[i])
            && (forall i :: 0 <= i < |part.value| ==> t[q + 1 + i] == part.value[i])
  {
  }

  lemma BareScanned(part: Part, buf: text, p: nat)
    requires part.BareValue? && WellFormed(part) && 0 < p && p + |PartText(part)| <= |buf|
    requires buf[p..p + |PartText(part)|] == PartText(part)
    ensures Scan(TagBody, buf, p) == Scan(TagBody, buf, p + |PartText(part)|)
  {
    hide Scan, PartText;
    var t, gap, value := PartText(part), part.gap, part.value;
    var q := p + 1 + |gap|;
    BareAt(part);
    SliceAt(buf, p, t);
    assert buf[p + 0] == t[0] && buf[p + (1 + |gap|)] == part.first && buf[p + (1 + |gap| + 1 + |value|)] == part.end;
    GoesOn(TagBody, buf, p, QuoteWait);
    forall i | p + 1 <= i < p + 1 + |gap| ensures Act(QuoteWait, buf[i], false) == Go(QuoteWait) {
      var k := i - p - 1;
      assert buf[p + (1 + k)] == t[1 + k] == gap[k];
      BlankIs(buf[i]);
    }
    Stays(QuoteWait, buf, p + 1, |gap|);
    BlankIs(part.first);
    GoesOn(QuoteWait, buf, q, Unquoted);
    forall i | q + 1 <= i < q + 1 + |value| ensures Act(Unquoted, buf[i], false) == Go(Unquoted) {
      var k := i - q - 1;
      assert buf[p + (1 + |gap| + 1 + k)] == t[1 + |gap| + 1 + k] == value[k];
      BlankIs(buf[i]);
    }
    Stays(Unquoted, buf, q + 1, |value|);
    BlankIs(part.end);
    GoesOn(Unquoted, buf, q + 1 + |value|, TagBody);
  }

  lemma PartScanned(part: Part, buf: text, p: nat)
    requires WellFormed(part) && 0 < p && p + |PartText(part)| <= |buf|
    requires buf[p..p + |PartText(part)|] == PartText(part)
    ensures Scan(TagBody, buf, p) == Scan(TagBody, buf, p + |PartText(part)|)
  {
    hide Scan;
    match part
    case Plain(t) =>
      SliceAt(buf, p, t);
      forall i | p <= i < p + |t| ensures Act(TagBody, buf[i], false) == Go(TagBody) {
        assert buf[i] == t[i - p];
      }
      Stays(TagBody, buf, p, |t|);
    case QuotedValue(gap, value) => QuotedScanned(gap, value, buf, p);
    case BareValue(_, _, _, _) => BareScanned(part, buf, p);
  }

  lemma {:induction false} PartsScanned(parts: seq<Part>, buf: text, p: nat)
    requires (forall i :: 0 <= i < |parts| ==> WellFormed(parts[i])) && 0 < p
    requires p + |PartsText(parts)| <= |buf| && buf[p..p + |PartsText(parts)|] == PartsText(parts)
    ensures Scan(TagBody, buf, p) == Scan(TagBody, buf, p + |PartsText(parts)|)
    decreases |parts|
  {
    hide Scan, WellFormed, PartText;
    if parts != [] {
      var t, u := PartText(parts[0]), PartsText(parts[1..]);
      var q, n := p + |t|, |t| + |u|;
      assert PartsText(parts) == t + u;
      assert buf[p..q] == buf[p..p + n][..|t|] && buf[q..q + |u|] == buf[p..p + n][|t|..];
      PartScanned(parts[0], buf, p);
      PartsScanned(parts[1..], buf, q);
    }
  }

  /** The beginnings of a tag: a letter or slash, or an exclamation mark and no two dashes. */
  predicate TagFront(t: text) {
    || (|t| == 2 && t[0] == LESS && (IsAlpha(t[1]) || t[1] == SLASH))
    || (|t| == 3 && t[0] == LESS && t[1] == EXCLAM && t[2] != DASH)
    || (|t| == 4 && t[0] == LESS && t[1] == EXCLAM && t[2] == DASH && t[3] != DASH)
  }

  lemma FrontScanned(front: text, buf: text)
    requires TagFront(front) && front <= buf
    ensures Scan(Text, buf, 0) == Scan(TagBody, buf, |front|)
  {
    assert forall i :: 0 <= i < |front| ==> buf[i] == front[i];
    if |front| == 2 {
      assert Scan(TagStart, buf, 1) == Scan(TagBody, buf, 2);
    } else {
      assert Scan(TagStart, buf, 1) == Scan(Dash1, buf, 2);
      if |front| == 3 {
        assert Scan(Dash1, buf, 2) == Scan(TagBody, buf, 3);
      } else {
        assert Scan(Dash1, buf, 2) == Scan(Dash2, buf, 3);
        assert Scan(Dash2, buf, 3) == Scan(TagBody, buf, 4);
      }
    }
  }

  /** Scanned up to here, in the state of a tag's body. */
  lemma BodyScanned(front: text, parts: seq<Part>, rest: text)
    requires TagFront(front) && forall i :: 0 <= i < |parts| ==> WellFormed(parts[i])
    ensures var t := front + PartsText(parts);
            NextToken(Text, t + rest) == Scan(TagBody, t + rest, |t|)
  {
    hide WellFormed, PartsText, TagFront, Scan;
    var u := PartsText(parts);
    var buf := front + u + rest;
    assert 0 < |front| by { FrontNotEmpty(front); }
    assert buf[|front|..|front| + |u|] == u;
    FrontScanned(front, buf);
    PartsScanned(parts, buf, |front|);
  }

  lemma FrontNotEmpty(front: text)
    requires TagFront(front)
    ensures front != []
  {
  }

  /** A tag with any attributes is one token, up to the bracket that closes it outside quotes. */
  lemma TagToken(front: text, parts: seq<Part>, rest: text)
    requires TagFront(front) && forall i :: 0 <= i < |parts| ==> WellFormed(parts[i])
    ensures var t := front + PartsText(parts) + [GREATER];
            NextToken(Text, t + rest) == Some(Token(TagChunk, |t|, Text))
  {
    hide WellFormed, PartsText, TagFront;
    var u := front + PartsText(parts);
    FrontNotEmpty(front);
    BodyScanned(front, parts, [GREATER] + rest);
    assert u + ([GREATER] + rest) == (u + [GREATER]) + rest;
    assert ((u + [GREATER]) + rest)[|u|] == GREATER;
  }

  /** The bracket may also close a value without quotes, or stand where one was expected. */
  lemma BareTagToken(front: text, parts: seq<Part>, gap: text, value: text, rest: text)
    requires TagFront(front) && forall i :: 0 <= i < |parts| ==> WellFormed(parts[i])
    requires AllIn(gap, BLANKS) && (value != [] ==> value[0] != QUOTE)
    requires forall i :: 0 <= i < |value| ==> value[i] !in BLANKS && value[i] != GREATER
    ensures var t := front + PartsText(parts) + ([EQUAL] + gap + value + [GREATER]);
            NextToken(Text, t + rest) == Some(Token(TagChunk, |t|, Text))
  {
    hide WellFormed, PartsText, TagFront, Scan;
    var u, tail := front + PartsText(parts), [EQUAL] + gap + value + [GREATER];
    FrontNotEmpty(front);
    BodyScanned(front, parts, tail + rest);
    MiddleAt(u, tail, rest);
    BareTail(u + tail + rest, |u|, gap, value);
  }

  lemma MiddleAt(u: text, tail: text, rest: text)
    ensures u + (tail + rest) == u + tail + rest && (u + tail + rest)[|u|..|u| + |tail|] == tail
  {
  }

  lemma BareTail(buf: text, p: nat, gap: text, value: text)
    requires AllIn(gap, BLANKS) && (value != [] ==> value[0] != QUOTE) && 0 < p
    requires forall i :: 0 <= i < |value| ==> value[i] !in BLANKS && value[i] != GREATER
    requires var tail := [EQUAL] + gap + value + [GREATER];
             p + |tail| <= |buf| && buf[p..p + |tail|] == tail
    ensures Scan(TagBody, buf, p) == Some(Token(TagChunk, p + |gap| + |value| + 2, Text))
  {
    hide Scan;
    var tail, q := [EQUAL] + gap + value + [GREATER], p + 1 + |gap|;
    SliceAt(buf, p, tail);
    assert buf[p] == tail[0] && buf[q + |value|] == tail[1 + |gap| + |value|];
    GoesOn(TagBody, buf, p, QuoteWait);
    forall i | p + 1 <= i < q ensures Act(QuoteWait, buf[i], false) == Go(QuoteWait) {
      assert buf[i] == tail[i - p] == gap[i - p - 1];
      BlankIs(buf[i]);
    }
    Stays(QuoteWait, buf, p + 1, |gap|);
    assert buf[q..q + |value|] == buf[p..p + |tail|][1 + |gap|..1 + |gap| + |value|] == value;
    ValueScanned(buf, q, value);
  }

  lemma ValueScanned(buf: text, q: nat, value: text)
    requires 0 < q && q + |value| < |buf| && buf[q..q + |value|] == value && buf[q + |value|] == GREATER
    requires value != [] ==> value[0] != QUOTE
    requires forall i :: 0 <= i < |value| ==> value[i] !in BLANKS && value[i] != GREATER
    ensures Scan(QuoteWait, buf, q) == Some(Token(TagChunk, q + |value| + 1, Text))
  {
    SliceAt(buf, q, value);
    if value != [] {
      BlankIs(value[0]);
      assert buf[q] == value[0];
      GoesOn(QuoteWait, buf, q, Unquoted);
      forall i | q + 1 <= i < q + |value| ensures Act(Unquoted, buf[i], false) == Go(Unquoted) {
        assert buf[i] == value[i - q];
        BlankIs(buf[i]);
      }
      Stays(Unquoted, buf, q + 1, |value| - 1);
    }
  }

  /** A tag that another bracket interrupts is handed over without it. */
  lemma InterruptedTag(front: text, parts: seq<Part>, rest: text)
    requires TagFront(front) && forall i :: 0 <= i < |parts| ==> WellFormed(parts[i])
    ensures var t := front + PartsText(parts);
            NextToken(Text, t + ([LESS] + rest)) == Some(Token(TagChunk, |t|, TagBody))
  {
    hide WellFormed, PartsText, TagFront;
    FrontNotEmpty(front);
    BodyScanned(front, parts, [LESS] + rest);
    var t := front + PartsText(parts);
    assert (t + ([LESS] + rest))[|t|] == LESS;
  }

  /** A bracket that starts no tag is text, together with the character after it. */
  lemma StrayBracket(c: octet, rest: text)
    requires !IsAlpha(c) && c != SLASH && c != EXCLAM
    ensures NextToken(Text, [LESS, c] + rest) == Some(Token(TextChunk, 2, Text))
  {
    var buf := [LESS, c] + rest;
    assert buf[0] == LESS && buf[1] == c;
    assert Scan(Text, buf, 0) == Scan(TagStart, buf, 1);
  }

  /** What is left of an interrupted tag: a bracket in front starts the next one. */
  lemma AfterInterruption(buf: text)
    requires buf != [] && buf[0] == LESS
    ensures NextToken(TagBody, buf) == NextToken(Text, buf)
  {
  }
}
