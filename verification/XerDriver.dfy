/**
  `xer_decode_general` as it runs: the tokeniser's and the tag checker's loops, and
  the decoding loop over a context kept between calls and a structure filled in place.
 */
module XerDriver {
  import opened Octets
  import opened Decimal
  import opened BitString
  import opened OctetReceivers
  import opened OctetText
  import opened XerEscape
  import opened XerStream

  /** `asn_struct_ctx_t`, the part kept between calls. */
  class Context {
    var phase: Phase
    var lex: Lex

    constructor ()
      ensures phase == Awaiting && lex == Text
    {
      phase, lex := Awaiting, Text;
    }
  }

  /** `pxml_parse` up to the first chunk. */
  method ScanToken(lex: Lex, buf: text) returns (t: Option<Token>)
    ensures t == NextToken(lex, buf)
  {
    hide Act;
    var state, p := lex, 0;
    while p < |buf|
      invariant 0 <= p <= |buf| && NextToken(lex, buf) == Scan(state, buf, p)
    {
      match Act(state, buf[p], p == 0) {
        case Go(next) => state := next;
        case Emit(kind, current, after) => return Some(Token(kind, p + current, after));
      }
      p := p + 1;
    }
    t := Flush(state, p);
  }

  /** The name comparison of `xer_check_tag`. */
  method CompareName(body: text, name: text, ct: TagCheck) returns (r: TagCheck)
    ensures r == MatchName(body, name, 0, ct)
  {
    var i := 0;
    while i < |body|
      invariant 0 <= i <= |body| && i <= |name| && MatchName(body, name, 0, ct) == MatchName(body, name, i, ct)
    {
      if i == |name| {
        if IsBlank(body[i]) { return ct; }
        return if body[i] == 0 then Broken else Unknown(ct);
      }
      if body[i] != name[i] { return Unknown(ct); }
      i := i + 1;
    }
    r := if i < |name| then Unknown(ct) else ct;
  }

  /** `xer_check_tag` */
  method ClassifyTag(tag: text, name: text) returns (r: TagCheck)
    ensures r == CheckTag(tag, name)
  {
    var size := |tag|;
    if size < 2 || tag[0] != LESS || tag[size - 1] != GREATER { return Broken; }
    var ct, from, to := Opening, 1, size - 1;
    if tag[1] == SLASH {
      if size < 3 { return Broken; }
      from, ct := 2, Closing;
      if to > from && tag[to - 1] == SLASH { return Broken; }
    } else if to > from && tag[to - 1] == SLASH {
      assert tag[from..to][..|tag[from..to]| - 1] == tag[from..to - 1];
      ct, to := Both, to - 1;
    }
    if name == [] { return Unknown(ct); }
    r := CompareName(tag[from..to], name, ct);
  }

  /** What a receiver returned: -1, a failed assertion, or the count converted. */
  datatype Returned = Minus | Assertion | Count(n: nat)

  /** The call through `body_receiver`. */
  method Receive(r: Receiver, st: OctetString, chunk: text, more: bool) returns (c: Returned)
    requires st.Valid() && Good(r, st.Value())
    modifies st
    ensures fresh(st.buf)
    ensures match Convert(r, old(st.Value()), chunk, more)
            case Rejected => c == Minus
            case Aborted => c == Assertion
            case Done(n, v) => c == Count(n) && st.Valid() && st.Value() == v
  {
    hide Hex, Expand, Digits, OfBits, Laid;
    match r
    case Hexadecimal =>
      var n := ConvertHexadecimal(st, chunk, more);
      c := if n == None then Minus else Count(n.value);
    case Binary =>
      ghost var before := st.Value();
      var n := ConvertBinary(st, chunk);
      if Digits(chunk).Some? { LaidClean(before, Digits(chunk).value); }
      c := if n == None then Minus else Count(n.value);
    case Entities =>
      var n := ConvertEntities(st, chunk, more);
      c := if n.Failed? then Assertion else Count(n.length);
  }

  /** `OCTET_STRING__handle_control_chars`; false is -1. */
  method HandleControlChars(st: OctetString, tag: text) returns (ok: bool)
    requires st.Valid()
    modifies st
    ensures fresh(st.buf) || st.buf == old(st.buf)
    ensures st.Valid()
    ensures match ControlFrom(tag, 0)
            case None => !ok && st.Value() == old(st.Value())
            case Some(ch) => ok && st.Value() == Append(old(st.Value()), [ch])
  {
    var ch := CheckEscapedControlChar(tag);
    if ch == None { return false; }
    ghost var before := st.Value();
    st.Grow(st.size + 2);
    StoreAt(st.buf, st.size, ch.value);
    st.size := st.size + 1;
    Terminate(st.buf, st.size);
    ok := true;
  }

  /** RC_OK, RC_WMORE, RC_FAIL, and a failed assertion. */
  datatype Code = OK | WMORE | FAIL | ASSERTION

  /** What a call leaves behind, against what it should come to. */
  ghost predicate Returns(out: Outcome, code: Code, consumed: nat, ctx: Context, st: OctetString)
    reads ctx, st, st.buf
  {
    match out
    case Finished(c, v) => code == OK && consumed == c && st.Valid() && st.Value() == v
    case Failed => code == FAIL
    case AssertionFailed => code == ASSERTION
    case WantMore(c, ph, lx, v) =>
      && code == WMORE && consumed == c
      && ctx.phase == ph && ctx.lex == lx && st.Valid() && st.Value() == v
  }

  /** One call on a buffer. */
  method Decode(ctx: Context, st: OctetString, r: Receiver, name: text, data: text) returns (code: Code, consumed: nat)
    requires st.Valid() && Good(r, st.Value())
    modifies ctx, st
    ensures Returns(Run(r, name, old(ctx.phase), old(ctx.lex), old(st.Value()), data), code, consumed, ctx, st)
  {
    hide Run, Advanced, Returns;
    ghost var out := Run(r, name, ctx.phase, ctx.lex, st.Value(), data);
    var buf := data;
    consumed := 0;
    AdvancedTwice(0, 0, out);
    while true
      invariant st.Valid() && Good(r, st.Value())
      invariant fresh(st.buf) || st.buf == old(st.buf)
      invariant out == Advanced(consumed, Run(r, name, ctx.phase, ctx.lex, st.Value(), buf))
      decreases |buf|
    {
      ghost var phase, lex, value := ctx.phase, ctx.lex, st.Value();
      var end, n := DecodeToken(ctx, st, r, name, buf);
      if end.Some? {
        ReturnsLater(Run(r, name, phase, lex, value, buf), end.value, n, consumed, ctx, st);
        return end.value, consumed + n;
      }
      AdvancedTwice(consumed, n, Run(r, name, ctx.phase, ctx.lex, st.Value(), buf[n..]));
      buf, consumed := buf[n..], consumed + n;
    }
  }

  lemma ReturnsLater(out: Outcome, code: Code, n: nat, consumed: nat, ctx: Context, st: OctetString)
    requires Returns(out, code, n, ctx, st)
    ensures Returns(Advanced(consumed, out), code, consumed + n, ctx, st)
  {
  }

  /** One turn of the loop: the end of the call, or the count consumed. */
  method DecodeToken(ctx: Context, st: OctetString, r: Receiver, name: text, buf: text)
    returns (end: Option<Code>, n: nat)
    requires st.Valid() && Good(r, st.Value())
    modifies ctx, st
    ensures fresh(st.buf) || st.buf == old(st.buf)
    ensures var out := Run(r, name, old(ctx.phase), old(ctx.lex), old(st.Value()), buf);
            match end
            case Some(code) => Returns(out, code, n, ctx, st)
            case None =>
              && 0 < n <= |buf| && st.Valid() && Good(r, st.Value())
              && out == Advanced(n, Run(r, name, ctx.phase, ctx.lex, st.Value(), buf[n..]))
  {
    hide Run, Convert, Scan, NextToken, TagAction;
    ghost var value := st.Value();
    var t := ScanToken(ctx.lex, buf);
    if t == None {
      NoToken(r, name, ctx.phase, ctx.lex, value, buf);
      return Some(WMORE), 0;
    }
    n := t.value.length;
    end := None;
    if t.value.kind == TagChunk {
      StepTag(r, name, ctx.phase, ctx.lex, value, buf);
      end := DoTag(ctx, st, r, name, buf[..n]);
    } else if t.value.kind == TextChunk && ctx.phase == InBody {
      StepText(r, name, ctx.lex, value, buf);
      var c := Receive(r, st, buf[..n], n < |buf|);
      if c == Minus { return Some(FAIL), 0; }
      if c == Assertion { return Some(ASSERTION), 0; }
      if c.n == 0 && n == |buf| { end := Some(WMORE); }
      n := c.n;
    } else {
      StepOver(r, name, ctx.phase, ctx.lex, value, buf);
    }
    ctx.lex := t.value.next;
  }

  /** The switch over the tag check: Some is the end of the call, None goes on. */
  method DoTag(ctx: Context, st: OctetString, r: Receiver, name: text, tag: text) returns (end: Option<Code>)
    requires st.Valid() && Good(r, st.Value())
    modifies ctx`phase, st
    ensures fresh(st.buf) || st.buf == old(st.buf)
    ensures match TagAction(r, name, old(ctx.phase), old(st.Value()), tag)
            case Refuse => end == Some(FAIL)
            case Leave(v) => end == Some(OK) && st.Valid() && st.Value() == v
            case Proceed(ph, v) => end == None && ctx.phase == ph && st.Valid() && st.Value() == v
  {
    hide Convert, CheckTag, ControlFrom;
    var tcv := ClassifyTag(tag, name);
    match tcv
    case Both =>
      if ctx.phase == InBody { return Some(FAIL); }
      var c := Receive(r, st, [], true);
      end := if c.Count? then Some(OK) else Some(FAIL);
    case Opening =>
      if ctx.phase == InBody { return Some(FAIL); }
      ctx.phase := InBody;
      end := None;
    case Closing =>
      end := if ctx.phase == Awaiting then Some(FAIL) else Some(OK);
    case UnknownBoth =>
      if r != Entities { return Some(FAIL); }
      var ok := HandleControlChars(st, tag);
      if !ok { return Some(FAIL); }
      end := if ctx.phase == Awaiting then Some(OK) else None;
    case _ =>
      end := Some(FAIL);
  }
}
