/**
  The XER stream decoder that string types share: XML text split into tokens, and
  the restartable loop that hands the element's text to a receiver. Input comes
  in buffers cut anywhere; what a call does not consume is given again in front of
  the next buffer.
 */
module XerStream {
  import opened Octets
  import opened Decimal
  import opened BitString
  import opened OctetText
  import opened XerEscape

  const EXCLAM: octet := 0x21
  const QUOTE: octet := 0x22
  const DASH: octet := 0x2d
  const EQUAL: octet := 0x3d

  // ----- tokens ------------------------------------------------------------------------

  /** `pstate_e` */
  datatype Lex =
    | Text | TagStart | TagBody | QuoteWait | Quoted | Unquoted
    | Dash1 | Dash2 | Comment | CloseDash2 | CloseRight

  datatype Kind = TextChunk | TagChunk | CommentChunk

  /** A chunk at the front of the buffer, and the state the parser is left in. */
  datatype Token = Token(kind: Kind, length: nat, next: Lex)

  /** What one character does: go on, or end a chunk with (1) or without (0) the character. */
  datatype Action =
    | Go(next: Lex)
    | Emit(kind: Kind, current: nat, after: Lex)

  predicate IsAlpha(c: octet) {
    0x41 <= c <= 0x5a || 0x61 <= c <= 0x7a
  }

  /** The switch of `pxml_parse`. A chunk ended without its character leaves the state as it was. */
  function Act(state: Lex, c: octet, first: bool): (a: Action)
    ensures a.Emit? && first ==> a.current == 1
    ensures a.Emit? ==> a.current <= 1 && a.after in {Text, TagBody} && (a.kind == TextChunk ==> a.after == Text)
  {
    match state
    case Text =>
      if c == LESS then (if first then Go(TagStart) else Emit(TextChunk, 0, Text)) else Go(Text)
    case TagStart =>
      if IsAlpha(c) || c == SLASH then Go(TagBody)
      else if c == EXCLAM then Go(Dash1)
      else Emit(TextChunk, 1, Text)
    case TagBody =>
      if c == GREATER then Emit(TagChunk, 1, Text)
      else if c == LESS then (if first then Go(TagStart) else Emit(TagChunk, 0, TagBody))
      else if c == EQUAL then Go(QuoteWait)
      else Go(TagBody)
    case QuoteWait =>
      if c == QUOTE then Go(Quoted)
      else if c == GREATER then Emit(TagChunk, 1, Text)
      else if !IsBlank(c) then Go(Unquoted)
      else Go(QuoteWait)
    case Quoted => if c == QUOTE then Go(TagBody) else Go(Quoted)
    case Unquoted =>
      if c == GREATER then Emit(TagChunk, 1, Text) else if IsBlank(c) then Go(TagBody) else Go(Unquoted)
    case Dash1 => if c == DASH then Go(Dash2) else Go(TagBody)
    case Dash2 => if c == DASH then Go(Comment) else Go(TagBody)
    case Comment => if c == DASH then Go(CloseDash2) else Go(Comment)
    case CloseDash2 => if c == DASH then Go(CloseRight) else Go(Comment)
    case CloseRight =>
      if c == GREATER then Emit(CommentChunk, 1, Text) else if c == DASH then Go(CloseRight) else Go(Comment)
  }

  /** The chunk handed over when the buffer ends in this state. */
  function Flush(state: Lex, p: nat): Option<Token> {
    if p > 0 && state == Comment then Some(Token(CommentChunk, p, Comment))
    else if p > 0 && state == Text then Some(Token(TextChunk, p, Text))
    else None
  }

  function Scan(state: Lex, buf: text, p: nat): (t: Option<Token>)
    requires p <= |buf|
    ensures t.Some? ==> 0 < t.value.length <= |buf| && t.value.next in {Text, TagBody, Comment}
    ensures t.Some? && t.value.kind == TextChunk ==> t.value.next == Text
    decreases |buf| - p
  {
    if p == |buf| then Flush(state, p)
    else
      match Act(state, buf[p], p == 0)
      case Go(next) => Scan(next, buf, p + 1)
      case Emit(kind, current, after) => Some(Token(kind, p + current, after))
  }

  /** `xer_next_token`; None is PXER_WMORE. */
  function NextToken(state: Lex, buf: text): (t: Option<Token>)
    ensures t.Some? ==> 0 < t.value.length <= |buf| && t.value.next in {Text, TagBody, Comment}
    ensures t.Some? && t.value.kind == TextChunk ==> t.value.next == Text
  {
    Scan(state, buf, 0)
  }

  /** The state at the end of the buffer, when no chunk ends before it. */
  function EndState(state: Lex, buf: text, p: nat): Option<Lex>
    requires p <= |buf|
    decreases |buf| - p
  {
    if p == |buf| then Some(state)
    else
      match Act(state, buf[p], p == 0)
      case Go(next) => EndState(next, buf, p + 1)
      case Emit(_, _, _) => None
  }

  lemma {:induction false} ScanExtends(state: Lex, a: text, b: text, p: nat)
    requires p <= |a|
    ensures var end := EndState(state, a, p);
            if end == None then Scan(state, a, p).Some? && Scan(state, a + b, p) == Scan(state, a, p)
            else
              && Scan(state, a, p) == Flush(end.value, |a|)
              && Scan(state, a + b, p) == Scan(end.value, a + b, |a|)
    decreases |a| - p
  {
    if p < |a| {
      assert (a + b)[p] == a[p];
      var act := Act(state, a[p], p == 0);
      if act.Go? {
        ScanExtends(act.next, a, b, p + 1);
      }
    }
  }

  predicate NoTag(t: text) {
    forall i :: 0 <= i < |t| ==> t[i] != LESS
  }

  /** Only plain text ends in the text state. */
  lemma {:induction false} TextOnly(state: Lex, a: text, p: nat)
    requires p <= |a| && EndState(state, a, p) == Some(Text)
    ensures state == Text && NoTag(a[p..])
    decreases |a| - p
  {
    if p < |a| {
      var act := Act(state, a[p], p == 0);
      TextOnly(act.next, a, p + 1);
      assert a[p..] == [a[p]] + a[p + 1..];
    }
  }

  /** Text runs up to the next `<` or the end of the buffer. */
  lemma {:induction false} TextRuns(x: text, rest: text, p: nat)
    requires NoTag(x) && p <= |x| && |x| > 0 && (rest == [] || rest[0] == LESS)
    ensures Scan(Text, x + rest, p) == Some(Token(TextChunk, |x|, Text))
    decreases |x| - p
  {
    if p < |x| {
      assert (x + rest)[p] == x[p];
      TextRuns(x, rest, p + 1);
    } else if rest == [] {
      assert x + rest == x;
    } else {
      assert (x + rest)[p] == rest[0];
    }
  }

  /** A text chunk that fills the buffer without being cut is `<` and one more character. */
  lemma {:induction false} StrayIsTwo(state: Lex, a: text, p: nat)
    requires p <= |a| && EndState(state, a, p) == None
    requires p == 0 ==> state != TagStart
    requires state == TagStart ==> p == 1 && a[0] == LESS
    ensures var t := Scan(state, a, p);
            t.Some? && (t.value.kind == TextChunk && t.value.length == |a| ==> |a| == 2 && a[0] == LESS)
    decreases |a| - p
  {
    if p < |a| {
      var act := Act(state, a[p], p == 0);
      if act.Go? {
        StrayIsTwo(act.next, a, p + 1);
      }
    }
  }

  predicate InComment(state: Lex) {
    state in {Comment, CloseDash2, CloseRight}
  }

  /** Inside a comment it does not matter how much of it has been handed over. */
  lemma {:induction false} CommentShifts(state: Lex, a: text, b: text, q: nat)
    requires InComment(state) && q <= |b| && |b| > 0
    ensures Scan(state, a + b, |a| + q)
         == var t := Scan(state, b, q);
            if t == None then None else Some(Token(t.value.kind, |a| + t.value.length, t.value.next))
    ensures Scan(state, b, q).Some? ==> Scan(state, b, q).value.kind == CommentChunk
    decreases |b| - q
  {
    if q < |b| {
      assert (a + b)[|a| + q] == b[q];
      var act := Act(state, b[q], q == 0);
      if act.Go? {
        CommentShifts(act.next, a, b, q + 1);
      }
    }
  }

  // ----- tags --------------------------------------------------------------------------

  /** `xer_check_tag_e` */
  datatype TagCheck = Broken | Opening | Closing | Both | UnknownOpening | UnknownClosing | UnknownBoth

  function Unknown(ct: TagCheck): TagCheck {
    match ct
    case Opening => UnknownOpening
    case Closing => UnknownClosing
    case Both => UnknownBoth
    case _ => ct
  }

  /** The tag's text against the expected name; blanks may follow the name. */
  function MatchName(body: text, name: text, i: nat, ct: TagCheck): TagCheck
    requires i <= |body| && i <= |name|
    decreases |body| - i
  {
    if i == |body| then (if i < |name| then Unknown(ct) else ct)
    else if i == |name| then
      (if IsBlank(body[i]) then ct else if body[i] == 0 then Broken else Unknown(ct))
    else if body[i] != name[i] then Unknown(ct)
    else MatchName(body, name, i + 1, ct)
  }

  /** `xer_check_tag` */
  function CheckTag(tag: text, name: text): TagCheck {
    var n := |tag|;
    if n < 2 || tag[0] != LESS || tag[n - 1] != GREATER then Broken
    else if tag[1] == SLASH then
      if n < 3 then Broken
      else
        var body := tag[2..n - 1];
        if body != [] && body[|body| - 1] == SLASH then Broken else Named(body, name, Closing)
    else
      var body := tag[1..n - 1];
      if body != [] && body[|body| - 1] == SLASH then Named(body[..|body| - 1], name, Both)
      else Named(body, name, Opening)
  }

  function Named(body: text, name: text, ct: TagCheck): TagCheck {
    if name == [] then Unknown(ct) else MatchName(body, name, 0, ct)
  }

  // ----- the decoding loop ---------------------------------------------------------------

  /** Whether the opening tag is still awaited (phase 0) or the body is being read (phase 1). */
  datatype Phase = Awaiting | InBody

  /** How a call ends: RC_OK and RC_WMORE with the count consumed, RC_FAIL, or a failed assertion. */
  datatype Outcome =
    | Finished(consumed: nat, value: BitStr)
    | Failed
    | AssertionFailed
    | WantMore(consumed: nat, phase: Phase, lex: Lex, value: BitStr)

  /** How a call ends whose receiver does not return a count. */
  function Refusal(c: Conversion): Outcome
    requires !c.Done?
  {
    if c.Rejected? then Failed else AssertionFailed
  }

  /** `ADVANCE(n)` before what follows. */
  function Advanced(n: nat, out: Outcome): Outcome {
    match out
    case Finished(c, v) => Finished(n + c, v)
    case WantMore(c, ph, lx, v) => WantMore(n + c, ph, lx, v)
    case _ => out
  }

  /** What a complete tag does. */
  datatype TagEffect =
    | Refuse
    | Leave(value: BitStr)
    | Proceed(phase: Phase, value: BitStr)

  function TagAction(r: Receiver, name: text, phase: Phase, st: BitStr, tag: text): (e: TagEffect)
    requires Good(r, st)
    ensures e.Proceed? ==> Good(r, e.value)
  {
    match CheckTag(tag, name)
    case Both =>
      if phase == InBody then Refuse
      else (match Convert(r, st, [], true)
            case Done(_, v) => Leave(v)
            case _ => Refuse)
    case Opening => if phase == InBody then Refuse else Proceed(InBody, st)
    case Closing => if phase == Awaiting then Refuse else Leave(st)
    case UnknownBoth =>
      var ch := if r == Entities then ControlFrom(tag, 0) else None;
      if ch == None then Refuse
      else if phase == Awaiting then Leave(Append(st, [ch.value]))
      else Proceed(phase, Append(st, [ch.value]))
    case _ => Refuse
  }

  /** One turn of the loop: the end of the call, or n octets consumed and the state to go on from. */
  datatype Turn =
    | Ends(out: Outcome)
    | Goes(n: nat, phase: Phase, lex: Lex, value: BitStr)

  function Step(r: Receiver, name: text, phase: Phase, lex: Lex, st: BitStr, buf: text): (s: Turn)
    requires Good(r, st)
    ensures s.Goes? ==> 0 < s.n <= |buf| && Good(r, s.value) && (lex != TagStart ==> s.lex != TagStart)
    ensures s.Ends? && s.out.WantMore? ==>
              Good(r, s.out.value) && s.out.consumed == 0 && (lex != TagStart ==> s.out.lex != TagStart)
  {
    match NextToken(lex, buf)
    case None => Ends(WantMore(0, phase, lex, st))
    case Some(t) =>
      match t.kind
      case CommentChunk => Goes(t.length, phase, t.next, st)
      case TextChunk => if phase == Awaiting then Goes(t.length, phase, t.next, st) else TakeText(r, st, buf, t)
      case TagChunk =>
        match TagAction(r, name, phase, st, buf[..t.length])
        case Refuse => Ends(Failed)
        case Leave(v) => Ends(Finished(t.length, v))
        case Proceed(ph, v) => Goes(t.length, ph, t.next, v)
  }

  /** `XER_GOT_BODY` on a chunk of text at the front of the buffer. */
  function TakeText(r: Receiver, st: BitStr, buf: text, t: Token): (s: Turn)
    requires Good(r, st) && 0 < t.length <= |buf|
    ensures s.Goes? ==> 0 < s.n <= t.length && Good(r, s.value) && s.lex == t.next
    ensures s.Ends? && s.out.WantMore? ==> Good(r, s.out.value) && s.out.consumed == 0 && s.out.lex == t.next
  {
    match Convert(r, st, buf[..t.length], t.length < |buf|)
    case Rejected => Ends(Failed)
    case Aborted => Ends(AssertionFailed)
    case Done(c, v) =>
      if c == 0 && t.length == |buf| then Ends(WantMore(0, InBody, t.next, v)) else Goes(c, InBody, t.next, v)
  }

  /** One call of `xer_decode_general` on a buffer. */
  function Run(r: Receiver, name: text, phase: Phase, lex: Lex, st: BitStr, buf: text): (out: Outcome)
    requires Good(r, st)
    ensures out.WantMore? ==> Good(r, out.value) && out.consumed <= |buf|
    ensures out.WantMore? && lex != TagStart ==> out.lex != TagStart
    decreases |buf|
  {
    match Step(r, name, phase, lex, st, buf)
    case Ends(out) => out
    case Goes(n, ph, lx, v) => Advanced(n, Run(r, name, ph, lx, v, buf[n..]))
  }

  // ----- what a call does with each kind of token --------------------------------------------

  lemma AdvancedTwice(m: nat, n: nat, out: Outcome)
    ensures Advanced(m, Advanced(n, out)) == Advanced(m + n, out)
    ensures Advanced(0, out) == out
  {
  }

  lemma NoToken(r: Receiver, name: text, phase: Phase, lex: Lex, st: BitStr, a: text)
    requires Good(r, st) && NextToken(lex, a) == None
    ensures Run(r, name, phase, lex, st, a) == WantMore(0, phase, lex, st)
  {
  }

  lemma NothingYet(r: Receiver, name: text, phase: Phase, lex: Lex, st: BitStr)
    requires Good(r, st)
    ensures Run(r, name, phase, lex, st, []) == WantMore(0, phase, lex, st)
  {
  }

  lemma StepTag(r: Receiver, name: text, phase: Phase, lex: Lex, st: BitStr, buf: text)
    requires Good(r, st) && NextToken(lex, buf).Some? && NextToken(lex, buf).value.kind == TagChunk
    ensures var t := NextToken(lex, buf).value;
            var e := TagAction(r, name, phase, st, buf[..t.length]);
            Run(r, name, phase, lex, st, buf)
            == if e.Refuse? then Failed
               else if e.Leave? then Finished(t.length, e.value)
               else Advanced(t.length, Run(r, name, e.phase, t.next, e.value, buf[t.length..]))
  {
  }

  lemma StepOver(r: Receiver, name: text, phase: Phase, lex: Lex, st: BitStr, buf: text)
    requires Good(r, st) && NextToken(lex, buf).Some?
    requires NextToken(lex, buf).value.kind == CommentChunk
          || (NextToken(lex, buf).value.kind == TextChunk && phase == Awaiting)
    ensures var t := NextToken(lex, buf).value;
            Run(r, name, phase, lex, st, buf) == Advanced(t.length, Run(r, name, phase, t.next, st, buf[t.length..]))
  {
  }

  lemma StepText(r: Receiver, name: text, lex: Lex, st: BitStr, buf: text)
    requires Good(r, st) && NextToken(lex, buf).Some? && NextToken(lex, buf).value.kind == TextChunk
    ensures var t := NextToken(lex, buf).value;
            var c := Convert(r, st, buf[..t.length], t.length < |buf|);
            && (c.Done? ==> Good(r, c.value) && c.length <= t.length)
            && Run(r, name, InBody, lex, st, buf)
               == if !c.Done? then Refusal(c)
                  else if c.length == 0 && t.length == |buf| then WantMore(0, InBody, t.next, c.value)
                  else Advanced(c.length, Run(r, name, InBody, t.next, c.value, buf[c.length..]))
  {
    hide Convert;
  }

  /** The length of the text before the next `<`. */
  function TextLength(t: text): (n: nat)
    ensures n <= |t|
  {
    if t == [] || t[0] == LESS then 0 else 1 + TextLength(t[1..])
  }

  lemma {:induction false} TextLengthIs(t: text)
    ensures var n := TextLength(t);
            NoTag(t[..n]) && (t[n..] == [] || t[n..][0] == LESS)
  {
    if t != [] && t[0] != LESS {
      TextLengthIs(t[1..]);
      var n := TextLength(t);
      assert t[..n] == [t[0]] + t[1..][..n - 1] && t[n..] == t[1..][n - 1..];
    }
  }

  /** A call on text, and then a tag or nothing. */
  lemma RunText(r: Receiver, name: text, st: BitStr, x: text, rest: text)
    requires Good(r, st) && NoTag(x) && x != [] && (rest == [] || rest[0] == LESS)
    ensures var more := rest != [];
            var c := Convert(r, st, x, more);
            && (c.Done? ==> Good(r, c.value) && c.length <= |x| && (more ==> c.length == |x|))
            && Run(r, name, InBody, Text, st, x + rest)
               == if !c.Done? then Refusal(c)
                  else if c.length == 0 && !more then WantMore(0, InBody, Text, c.value)
                  else Advanced(c.length, Run(r, name, InBody, Text, c.value, x[c.length..] + rest))
  {
    hide Convert;
    TextRuns(x, rest, 0);
    assert (x + rest)[..|x|] == x;
    var c := Convert(r, st, x, rest != []);
    if c.Done? { assert (x + rest)[c.length..] == x[c.length..] + rest; }
  }

  /** Text in front of a tag is converted whole. */
  lemma WholeText(r: Receiver, name: text, st: BitStr, x: text, rest: text)
    requires Good(r, st) && NoTag(x) && rest != [] && rest[0] == LESS
    ensures var c := Convert(r, st, x, true);
            && (c.Done? ==> Good(r, c.value))
            && Run(r, name, InBody, Text, st, x + rest)
               == if c.Done? then Advanced(c.length, Run(r, name, InBody, Text, c.value, rest)) else Refusal(c)
  {
    hide Convert, Run;
    if x == [] {
      ConvertNothing(r, st, true);
      assert x + rest == rest;
      AdvancedTwice(0, 0, Run(r, name, InBody, Text, st, rest));
    } else {
      RunText(r, name, st, x, rest);
      assert x[|x|..] + rest == rest;
    }
  }

  /** Before the opening tag text is passed over. */
  lemma RunAwaiting(r: Receiver, name: text, st: BitStr, x: text, rest: text)
    requires Good(r, st) && NoTag(x) && (rest == [] || rest[0] == LESS)
    ensures Run(r, name, Awaiting, Text, st, x + rest) == Advanced(|x|, Run(r, name, Awaiting, Text, st, rest))
  {
    AdvancedTwice(0, 0, Run(r, name, Awaiting, Text, st, rest));
    if x == [] {
      assert x + rest == rest;
    } else {
      TextRuns(x, rest, 0);
      assert (x + rest)[|x|..] == rest;
    }
  }

  /** A character that starts no reference goes as it is. */
  lemma LiteralRead(t: text, more: bool)
    requires t != [] && t[0] != AMPERSAND
    ensures Expand(t, more) == Onto(Taken(1, [t[0]]), Expand(t[1..], more))
    ensures Expand([], more) == Some(Taken(0, []))
  {
    assert PieceOf(t) == Verbatim(t);
  }
}
