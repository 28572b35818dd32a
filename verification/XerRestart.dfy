/**
  Restarting the XER stream decoder: a document decodes alike however it is cut into
  buffers, but for one shape of entity text, which is told exactly.
 */
module XerRestart {
  import opened Octets
  import opened Decimal
  import opened BitString
  import opened OctetText
  import opened XerEscape
  import opened XerStream

  /** Equal; or more input is awaited, with the same value so far and in the same phase. */
  predicate SameOutcome(x: Outcome, y: Outcome) {
    x == y || (x.WantMore? && y.WantMore? && x.phase == y.phase && x.value == y.value)
  }

  // ----- stray ampersands --------------------------------------------------------------------

  /** An ampersand read together with the text up to the next `<` would be a reference. */
  predicate Rereads(rest: text) {
    var p := PieceOf([AMPERSAND] + rest[..TextLength(rest)]);
    p.ZeroReference? || (p.Stored? && p.length > 1)
  }

  /** The token at the front is `<&`, kept as text, and what follows would make a reference of its ampersand. */
  predicate StrayHere(phase: Phase, lex: Lex, buf: text) {
    var t := NextToken(lex, buf);
    && phase == InBody && t.Some? && t.value.kind == TextChunk
    && buf[..t.value.length] == [LESS, AMPERSAND] && Rereads(buf[2..])
  }

  /** Such a token comes up while the document is decoded in one call. */
  predicate Stray(name: text, phase: Phase, lex: Lex, st: BitStr, buf: text)
    decreases |buf|
  {
    || StrayHere(phase, lex, buf)
    || match Step(Entities, name, phase, lex, st, buf)
       case Ends(_) => false
       case Goes(n, ph, lx, v) => Stray(name, ph, lx, v, buf[n..])
  }

  /** No `<` directly followed by `&`: well-formed XML has none. */
  predicate NoStray(t: text) {
    forall i :: 0 <= i < |t| - 1 && t[i] == LESS ==> t[i + 1] != AMPERSAND
  }

  /** Documents the restart law covers: every one but entity text in which a stray ampersand may show. */
  predicate Steady(r: Receiver, name: text, phase: Phase, lex: Lex, st: BitStr, doc: text)
    requires Good(r, st)
  {
    r == Entities ==>
      || NoStray(doc)
      || (Run(r, name, phase, lex, st, doc).Finished? && !Stray(name, phase, lex, st, doc))
  }

  lemma NoStrayDrops(t: text, n: nat)
    requires NoStray(t) && n <= |t|
    ensures NoStray(t[n..])
  {
    forall i | 0 <= i < |t[n..]| - 1 && t[n..][i] == LESS ensures t[n..][i + 1] != AMPERSAND {
      assert t[n + i] == LESS && t[n + i + 1] == t[n..][i + 1];
    }
  }

  /** The law covers what is left after a turn of the loop. */
  lemma SteadyGoes(r: Receiver, name: text, phase: Phase, lex: Lex, st: BitStr, doc: text)
    requires Good(r, st) && Steady(r, name, phase, lex, st, doc)
    requires Step(r, name, phase, lex, st, doc).Goes?
    ensures var s := Step(r, name, phase, lex, st, doc);
            Steady(r, name, s.phase, s.lex, s.value, doc[s.n..])
  {
    hide Step, StrayHere, NoStray;
    var s := Step(r, name, phase, lex, st, doc);
    if NoStray(doc) { NoStrayDrops(doc, s.n); }
  }

  /** Text in front of a tag is taken in one turn, and holds no stray ampersand. */
  lemma StrayAfterText(name: text, phase: Phase, st: BitStr, x: text, rest: text)
    requires NoTag(x) && rest != [] && rest[0] == LESS
    ensures phase == Awaiting ==>
              Stray(name, phase, Text, st, x + rest) == Stray(name, phase, Text, st, rest)
    ensures phase == InBody ==>
              var c := Convert(Entities, st, x, true);
              c.Done? ==> Stray(name, phase, Text, st, x + rest) == Stray(name, phase, Text, c.value, rest)
  {
    hide Convert, TagAction, Rereads;
    if x == [] {
      ConvertNothing(Entities, st, true);
      assert x + rest == rest;
    } else {
      TextRuns(x, rest, 0);
      assert (x + rest)[..|x|] == x && (x + rest)[|x|..] == rest;
      assert x[0] != LESS;
      if phase == Awaiting || Convert(Entities, st, x, true).Done? {
        StrayGoes(name, phase, Text, st, x + rest);
      }
    }
  }

  lemma StrayGoes(name: text, phase: Phase, lex: Lex, st: BitStr, buf: text)
    requires !StrayHere(phase, lex, buf) && Step(Entities, name, phase, lex, st, buf).Goes?
    ensures var s := Step(Entities, name, phase, lex, st, buf);
            Stray(name, phase, lex, st, buf) == Stray(name, s.phase, s.lex, s.value, buf[s.n..])
  {
    hide Step, StrayHere;
  }

  // ----- text -----------------------------------------------------------------------------------

  /** Text that nothing follows yet ends in waiting, unless it cannot be converted. */
  lemma RunOnlyText(r: Receiver, name: text, st: BitStr, x: text)
    requires Good(r, st) && NoTag(x)
    ensures var c := Convert(r, st, x, false);
            && (c.Done? ==> Good(r, c.value))
            && Run(r, name, InBody, Text, st, x)
               == if c.Done? then WantMore(c.length, InBody, Text, c.value) else Refusal(c)
  {
    hide Convert, Run;
    NothingYet(r, name, InBody, Text, st);
    if x == [] {
      ConvertNothing(r, st, false);
    } else {
      RunText(r, name, st, x, []);
      assert x + [] == x;
      var c := Convert(r, st, x, false);
      if c.Done? && c.length > 0 {
        var tail := x[c.length..];
        ConvertStalls(r, st, x);
        NothingYet(r, name, InBody, Text, c.value);
        assert tail + [] == tail;
        if tail != [] { RunText(r, name, c.value, tail, []); }
      }
    }
  }

  /** Text cut in two: what a first call left unread, in front of the rest, comes to the same. */
  lemma SplitText(r: Receiver, name: text, st: BitStr, a: text, t: text, rest: text)
    requires Good(r, st) && NoTag(a) && NoTag(t) && (rest == [] || rest[0] == LESS)
    ensures var c, whole := Convert(r, st, a, false), Run(r, name, InBody, Text, st, (a + t) + rest);
            if c.Done? then
              && c.length <= |a| && Good(r, c.value)
              && SameOutcome(whole, Advanced(c.length, Run(r, name, InBody, Text, c.value, (a[c.length..] + t) + rest)))
            else whole == Refusal(c)
  {
    hide Convert, Run;
    ConvertSplit(r, st, a, t, rest != []);
    var c := Convert(r, st, a, false);
    if rest == [] {
      assert (a + t) + [] == a + t;
      RunOnlyText(r, name, st, a + t);
      if c.Done? {
        assert (a[c.length..] + t) + [] == a[c.length..] + t;
        RunOnlyText(r, name, c.value, a[c.length..] + t);
      }
    } else {
      WholeText(r, name, st, a + t, rest);
      if c.Done? {
        WholeText(r, name, c.value, a[c.length..] + t, rest);
        var d := Convert(r, c.value, a[c.length..] + t, true);
        if d.Done? { AdvancedTwice(c.length, d.length, Run(r, name, InBody, Text, d.value, rest)); }
      }
    }
  }

  /** The law covers what such a call leaves, in front of the rest. */
  lemma SteadyCutText(r: Receiver, name: text, st: BitStr, a: text, t: text, rest: text)
    requires Good(r, st) && NoTag(a) && NoTag(t) && (rest == [] || rest[0] == LESS)
    requires Steady(r, name, InBody, Text, st, (a + t) + rest) && Convert(r, st, a, false).Done?
    ensures var c := Convert(r, st, a, false);
            Good(r, c.value) && Steady(r, name, InBody, Text, c.value, (a[c.length..] + t) + rest)
  {
    hide Convert, Run, Stray, NoStray;
    var c := Convert(r, st, a, false);
    var whole, left := (a + t) + rest, (a[c.length..] + t) + rest;
    assert left == whole[c.length..];
    if r == Entities {
      if NoStray(whole) {
        NoStrayDrops(whole, c.length);
      } else {
        SplitText(r, name, st, a, t, rest);
        assert Run(r, name, InBody, Text, c.value, left).Finished?;
        if rest == [] {
          assert (a + t) + [] == a + t;
          RunOnlyText(r, name, st, a + t);
        } else {
          WholeText(r, name, st, a + t, rest);
          ConvertSplit(r, st, a, t, true);
          StrayAfterText(name, InBody, st, a + t, rest);
          StrayAfterText(name, InBody, c.value, a[c.length..] + t, rest);
        }
      }
    }
  }

  /** `<` and a character that no reference starts with convert alike whether or not more is known to follow. */
  lemma StrayText(r: Receiver, st: BitStr, a: text)
    requires Good(r, st) && |a| == 2 && a[0] == LESS
    requires r == Entities ==> a[1] != AMPERSAND
    ensures Convert(r, st, a, true) == Convert(r, st, a, false)
    ensures Convert(r, st, a, false).Done? ==> Convert(r, st, a, false).length == 2
  {
    if r == Hexadecimal {
      assert GroupFrom(a, 0, None) == Bad;
    } else if r == Entities {
      LiteralRead(a, true);
      LiteralRead(a, false);
      LiteralRead(a[1..], true);
      LiteralRead(a[1..], false);
      assert a[1..][1..] == [];
    }
  }

  /** `<&` in a buffer of its own: the ampersand is left for what comes. */
  lemma StrayWaits(name: text, lex: Lex, st: BitStr)
    requires NextToken(lex, [LESS, AMPERSAND]) == Some(Token(TextChunk, 2, Text))
    ensures Run(Entities, name, InBody, lex, st, [LESS, AMPERSAND]) == WantMore(1, InBody, Text, Append(st, [LESS]))
  {
    hide Run, NextToken;
    var cut, v := [LESS, AMPERSAND], Append(st, [LESS]);
    LiteralRead(cut, false);
    assert cut[1..] == [AMPERSAND] && cut[..2] == cut;
    assert Expand([AMPERSAND], false) == Some(Taken(0, []));
    assert [LESS] + [] == [LESS];
    StepText(Entities, name, lex, st, cut);
    AmpersandWaits(name, v);
  }

  lemma AmpersandWaits(name: text, st: BitStr)
    ensures Run(Entities, name, InBody, Text, st, [AMPERSAND]) == WantMore(0, InBody, Text, st)
  {
    hide Run;
    var b := [AMPERSAND];
    TextRuns(b, [], 0);
    assert b + [] == b && b[..1] == b && st.buf + [] == st.buf;
    assert Expand(b, false) == Some(Taken(0, []));
    StepText(Entities, name, Text, st, b);
  }

  /** `<&` with something after it: both are kept. */
  lemma StrayStep(name: text, lex: Lex, st: BitStr, rest: text)
    requires rest != [] && NextToken(lex, [LESS, AMPERSAND] + rest) == Some(Token(TextChunk, 2, Text))
    ensures Step(Entities, name, InBody, lex, st, [LESS, AMPERSAND] + rest)
         == Goes(2, InBody, Text, Append(Append(st, [LESS]), [AMPERSAND]))
  {
    hide NextToken;
    var cut := [LESS, AMPERSAND];
    var doc := cut + rest;
    LiteralRead(cut, true);
    assert cut[1..] == [AMPERSAND] && [AMPERSAND][1..] == [];
    LiteralRead([LESS], true);
    assert Expand([AMPERSAND], true) == Onto(Taken(1, [AMPERSAND]), Some(Taken(0, [])));
    assert [AMPERSAND] + [] == [AMPERSAND] && [LESS] + [AMPERSAND] == cut;
    assert doc[..2] == cut;
    assert (st.buf + [LESS]) + [AMPERSAND] == st.buf + cut;
  }

  lemma StrayKept(name: text, lex: Lex, st: BitStr, rest: text)
    requires rest != [] && NextToken(lex, [LESS, AMPERSAND] + rest) == Some(Token(TextChunk, 2, Text))
    ensures Run(Entities, name, InBody, lex, st, [LESS, AMPERSAND] + rest)
         == Advanced(2, Run(Entities, name, InBody, Text, Append(Append(st, [LESS]), [AMPERSAND]), rest))
  {
    hide NextToken, Step;
    StrayStep(name, lex, st, rest);
    assert ([LESS, AMPERSAND] + rest)[2..] == rest;
  }

  /** Unless it makes a reference, an ampersand read with the text after it comes to the ampersand kept before. */
  lemma AmpersandAlike(name: text, st: BitStr, rest: text)
    requires !Rereads(rest) && Run(Entities, name, InBody, Text, Append(st, [AMPERSAND]), rest).Finished?
    requires !Stray(name, InBody, Text, Append(st, [AMPERSAND]), rest)
    ensures Run(Entities, name, InBody, Text, st, [AMPERSAND] + rest)
         == Advanced(1, Run(Entities, name, InBody, Text, Append(st, [AMPERSAND]), rest))
    ensures Steady(Entities, name, InBody, Text, st, [AMPERSAND] + rest)
  {
    hide Run, Convert, Stray, NoStray;
    var k, v := TextLength(rest), Append(st, [AMPERSAND]);
    TextLengthIs(rest);
    var u, tag := rest[..k], rest[k..];
    assert rest == u + tag && [AMPERSAND] + rest == ([AMPERSAND] + u) + tag;
    if tag == [] {
      assert u + [] == u;
      RunOnlyText(Entities, name, v, u);
    } else {
      WholeText(Entities, name, v, u, tag);
      WholeText(Entities, name, st, [AMPERSAND] + u, tag);
      AmpersandConverts(st, u);
      StrayAfterText(name, InBody, v, u, tag);
      StrayAfterText(name, InBody, st, [AMPERSAND] + u, tag);
      var c := Convert(Entities, v, u, true);
      if c.Done? { AdvancedTwice(1, c.length, Run(Entities, name, InBody, Text, c.value, tag)); }
    }
  }

  lemma AmpersandConverts(st: BitStr, u: text)
    requires var p := PieceOf([AMPERSAND] + u); !p.ZeroReference? && (p.Stored? ==> p.length == 1)
    ensures Convert(Entities, st, [AMPERSAND] + u, true)
         == Later(1, Convert(Entities, Append(st, [AMPERSAND]), u, true))
  {
    hide PieceOf, Expand;
    var t := [AMPERSAND] + u;
    if PieceOf(t).Stored? { PieceIsPlain(t); }
    assert t[1..] == u;
    ExpandCases(t, true);
    AppendTwice(st, Taken(1, [AMPERSAND]), Expand(u, true));
  }

  lemma ExpandCases(t: text, more: bool)
    requires t != []
    ensures PieceOf(t).ZeroReference? ==> Expand(t, more) == None
    ensures PieceOf(t).Stored? ==>
              Expand(t, more) == Onto(Taken(PieceOf(t).length, PieceOf(t).octets), Expand(t[PieceOf(t).length..], more))
    ensures PieceOf(t).Incomplete? && more ==> Expand(t, more) == Onto(Taken(1, [t[0]]), Expand(t[1..], more))
  {
    hide PieceOf;
  }

  // ----- one call or two --------------------------------------------------------------------------

  /** What a later call owes: to come, after `first` on a, to what `whole` is on a and b together. */
  ghost predicate Resumes(r: Receiver, name: text, first: Outcome, whole: Outcome, a: text, b: text) {
    if first.WantMore? then
      && Good(r, first.value) && first.consumed <= |a| && first.lex != TagStart
      && Steady(r, name, first.phase, first.lex, first.value, a[first.consumed..] + b)
      && SameOutcome(whole,
           Advanced(first.consumed,
             Run(r, name, first.phase, first.lex, first.value, a[first.consumed..] + b)))
    else whole == first
  }

  lemma Ended(r: Receiver, name: text, first: Outcome, a: text, b: text)
    requires !first.WantMore?
    ensures Resumes(r, name, first, first, a, b)
  {
  }

  /**
    A call on a first buffer, then a call on what it left together with the second
    buffer, comes to what one call on both does.
   */
  lemma {:induction false} RunSplit(r: Receiver, name: text, phase: Phase, lex: Lex, st: BitStr, a: text, b: text)
    requires Good(r, st) && lex != TagStart
    requires Steady(r, name, phase, lex, st, a + b)
    ensures Resumes(r, name, Run(r, name, phase, lex, st, a), Run(r, name, phase, lex, st, a + b), a, b)
    decreases |a|, 4
  {
    hide Convert, TagAction, Run, Scan, Resumes, Steady;
    ScanExtends(lex, a, b, 0);
    match EndState(lex, a, 0)
    case None => CompleteToken(r, name, phase, lex, st, a, b);
    case Some(Text) =>
      TextOnly(lex, a, 0);
      assert a[0..] == a;
      CutText(r, name, phase, st, a, b);
    case Some(Comment) => CutComment(r, name, phase, lex, st, a, b);
    case Some(_) =>
      NoToken(r, name, phase, lex, st, a);
      Unstarted(r, name, phase, lex, st, a, b);
  }

  /** The same for the rest of the buffer, after a step that consumed n. */
  lemma {:induction false} Continue(r: Receiver, name: text, phase: Phase, lex: Lex, st: BitStr, a: text, b: text, n: nat)
    requires Good(r, st) && lex != TagStart && 0 < n <= |a|
    requires Steady(r, name, phase, lex, st, a[n..] + b)
    ensures Resumes(r, name, Advanced(n, Run(r, name, phase, lex, st, a[n..])),
                    Advanced(n, Run(r, name, phase, lex, st, a[n..] + b)), a, b)
    decreases |a|, 0
  {
    hide Convert, Run, Steady;
    RunSplit(r, name, phase, lex, st, a[n..], b);
    var first := Run(r, name, phase, lex, st, a[n..]);
    if first.WantMore? {
      assert a[n + first.consumed..] == a[n..][first.consumed..];
      AdvancedTwice(n, first.consumed,
        Run(r, name, first.phase, first.lex, first.value, a[n..][first.consumed..] + b));
    }
  }

  /** A turn of the loop that both buffers take alike. */
  lemma {:induction false} SameTurn(r: Receiver, name: text, phase: Phase, lex: Lex, st: BitStr, a: text, b: text)
    requires Good(r, st) && lex != TagStart
    requires Steady(r, name, phase, lex, st, a + b)
    requires Step(r, name, phase, lex, st, a) == Step(r, name, phase, lex, st, a + b)
    requires Step(r, name, phase, lex, st, a).Ends? ==> !Step(r, name, phase, lex, st, a).out.WantMore?
    ensures Resumes(r, name, Run(r, name, phase, lex, st, a), Run(r, name, phase, lex, st, a + b), a, b)
    decreases |a|, 1
  {
    hide Step, Steady, Resumes;
    match Step(r, name, phase, lex, st, a)
    case Ends(out) => Ended(r, name, out, a, b);
    case Goes(n, ph, lx, v) =>
      SteadyGoes(r, name, phase, lex, st, a + b);
      assert (a + b)[n..] == a[n..] + b;
      Continue(r, name, ph, lx, v, a, b, n);
  }

  /** The first token lies within the first buffer. */
  lemma {:induction false} CompleteToken(r: Receiver, name: text, phase: Phase, lex: Lex, st: BitStr, a: text, b: text)
    requires Good(r, st) && lex != TagStart && EndState(lex, a, 0) == None
    requires Steady(r, name, phase, lex, st, a + b)
    ensures Resumes(r, name, Run(r, name, phase, lex, st, a), Run(r, name, phase, lex, st, a + b), a, b)
    decreases |a|, 3
  {
    hide Convert, Step, Resumes, Scan, Run, Steady, EndState;
    ScanExtends(lex, a, b, 0);
    var t := NextToken(lex, a).value;
    if phase == InBody && t.kind == TextChunk && t.length == |a| {
      StrayIsTwo(lex, a, 0);
      CompleteText(r, name, lex, st, a, b);
    } else {
      SameStep(r, name, phase, lex, st, a, b);
      SameTurn(r, name, phase, lex, st, a, b);
    }
  }

  /** A token both buffers start with, and know alike whether more follows it, makes the same turn. */
  lemma SameStep(r: Receiver, name: text, phase: Phase, lex: Lex, st: BitStr, a: text, b: text)
    requires Good(r, st) && NextToken(lex, a).Some? && NextToken(lex, a + b) == NextToken(lex, a)
    requires var t := NextToken(lex, a).value;
             phase == InBody && t.kind == TextChunk && t.length == |a| ==>
               && Convert(r, st, a, false) == Convert(r, st, a, true)
               && (Convert(r, st, a, true).Done? ==> Convert(r, st, a, true).length == |a|)
    ensures var s := Step(r, name, phase, lex, st, a);
            s == Step(r, name, phase, lex, st, a + b) && (s.Ends? ==> !s.out.WantMore?)
  {
    hide Convert, TagAction, NextToken;
    var n := NextToken(lex, a).value.length;
    assert (a + b)[..n] == a[..n] && a[..|a|] == a;
  }

  /** The first buffer is a token of text, `<` and one more character. */
  lemma {:induction false} CompleteText(r: Receiver, name: text, lex: Lex, st: BitStr, a: text, b: text)
    requires Good(r, st) && lex != TagStart && |a| == 2 && a[0] == LESS
    requires NextToken(lex, a) == Some(Token(TextChunk, 2, Text)) == NextToken(lex, a + b)
    requires Steady(r, name, InBody, lex, st, a + b)
    ensures Resumes(r, name, Run(r, name, InBody, lex, st, a), Run(r, name, InBody, lex, st, a + b), a, b)
    decreases |a|, 2
  {
    hide Convert, Step, Resumes, Run, Steady, NextToken;
    if r == Entities && a[1] == AMPERSAND {
      assert a == [LESS, AMPERSAND];
      CutStray(name, lex, st, b);
    } else {
      StrayText(r, st, a);
      SameStep(r, name, InBody, lex, st, a, b);
      SameTurn(r, name, InBody, lex, st, a, b);
    }
  }

  /** The first buffer is `<&`. */
  lemma CutStray(name: text, lex: Lex, st: BitStr, b: text)
    requires NextToken(lex, [LESS, AMPERSAND]) == Some(Token(TextChunk, 2, Text))
    requires NextToken(lex, [LESS, AMPERSAND] + b) == NextToken(lex, [LESS, AMPERSAND])
    requires Steady(Entities, name, InBody, lex, st, [LESS, AMPERSAND] + b)
    ensures Resumes(Entities, name, Run(Entities, name, InBody, lex, st, [LESS, AMPERSAND]),
                    Run(Entities, name, InBody, lex, st, [LESS, AMPERSAND] + b), [LESS, AMPERSAND], b)
  {
    hide Run, NextToken, Rereads, Steady;
    var a, v := [LESS, AMPERSAND], Append(st, [LESS]);
    StrayWaits(name, lex, st);
    if b == [] {
      assert a + b == a && a[1..] + b == [AMPERSAND];
      AmpersandWaits(name, v);
      SteadyAmpersand(name, v);
    } else {
      NotStray(name, lex, st, b);
      StrayKept(name, lex, st, b);
      AmpersandAlike(name, v, b);
      assert a[1..] + b == [AMPERSAND] + b;
      AdvancedTwice(1, 1, Run(Entities, name, InBody, Text, Append(v, [AMPERSAND]), b));
    }
  }

  lemma SteadyAmpersand(name: text, st: BitStr)
    ensures Steady(Entities, name, InBody, Text, st, [AMPERSAND])
  {
  }

  lemma NotStray(name: text, lex: Lex, st: BitStr, b: text)
    requires NextToken(lex, [LESS, AMPERSAND] + b) == Some(Token(TextChunk, 2, Text)) && b != []
    requires Steady(Entities, name, InBody, lex, st, [LESS, AMPERSAND] + b)
    ensures !Rereads(b) && Run(Entities, name, InBody, lex, st, [LESS, AMPERSAND] + b).Finished?
    ensures !Stray(name, InBody, Text, Append(Append(st, [LESS]), [AMPERSAND]), b)
  {
    hide Run, NextToken, Rereads, Step;
    var doc := [LESS, AMPERSAND] + b;
    assert doc[..2] == [LESS, AMPERSAND] && doc[2..] == b && doc[0] == LESS && doc[1] == AMPERSAND;
    StrayStep(name, lex, st, b);
  }

  /** The first buffer is all text, passed over. */
  lemma CutAwaiting(r: Receiver, name: text, st: BitStr, a: text, t: text, rest: text)
    requires Good(r, st) && NoTag(a) && NoTag(t) && (rest == [] || rest[0] == LESS)
    requires Steady(r, name, Awaiting, Text, st, (a + t) + rest)
    ensures Resumes(r, name, Run(r, name, Awaiting, Text, st, a), Run(r, name, Awaiting, Text, st, (a + t) + rest), a, t + rest)
  {
    hide Run, Steady;
    assert a + [] == a && a[|a|..] + (t + rest) == t + rest;
    RunAwaiting(r, name, st, a, []);
    NothingYet(r, name, Awaiting, Text, st);
    RunAwaiting(r, name, st, a + t, rest);
    RunAwaiting(r, name, st, t, rest);
    AdvancedTwice(|a|, |t|, Run(r, name, Awaiting, Text, st, rest));
    SteadyAwaiting(r, name, st, a, t, rest);
  }

  lemma SteadyAwaiting(r: Receiver, name: text, st: BitStr, a: text, t: text, rest: text)
    requires Good(r, st) && NoTag(a) && NoTag(t) && (rest == [] || rest[0] == LESS)
    requires Steady(r, name, Awaiting, Text, st, (a + t) + rest)
    ensures Steady(r, name, Awaiting, Text, st, t + rest)
  {
    hide Run, Stray, NoStray;
    var whole := (a + t) + rest;
    assert t + rest == whole[|a|..];
    if r == Entities {
      if NoStray(whole) {
        NoStrayDrops(whole, |a|);
      } else {
        RunAwaiting(r, name, st, a + t, rest);
        RunAwaiting(r, name, st, t, rest);
        NothingYet(r, name, Awaiting, Text, st);
        if rest != [] {
          StrayAfterText(name, Awaiting, st, a + t, rest);
          StrayAfterText(name, Awaiting, st, t, rest);
        }
      }
    }
  }

  /** The same within the element, where the receiver has been given what it could take. */
  lemma CutBody(r: Receiver, name: text, st: BitStr, a: text, t: text, rest: text)
    requires Good(r, st) && NoTag(a) && NoTag(t) && (rest == [] || rest[0] == LESS)
    requires Steady(r, name, InBody, Text, st, (a + t) + rest)
    ensures Resumes(r, name, Run(r, name, InBody, Text, st, a), Run(r, name, InBody, Text, st, (a + t) + rest), a, t + rest)
  {
    hide Convert, Run, Steady, SameOutcome;
    SplitText(r, name, st, a, t, rest);
    RunOnlyText(r, name, st, a);
    var c := Convert(r, st, a, false);
    if c.Done? {
      Associative(a[c.length..], t, rest);
      SteadyCutText(r, name, st, a, t, rest);
    }
  }

  /** The first buffer is all text. */
  lemma CutText(r: Receiver, name: text, phase: Phase, st: BitStr, a: text, b: text)
    requires Good(r, st) && NoTag(a)
    requires Steady(r, name, phase, Text, st, a + b)
    ensures Resumes(r, name, Run(r, name, phase, Text, st, a), Run(r, name, phase, Text, st, a + b), a, b)
  {
    hide Convert, Run, Steady, Resumes;
    var k := TextLength(b);
    TextLengthIs(b);
    var t, rest := b[..k], b[k..];
    assert b == t + rest;
    assert a + b == (a + t) + rest;
    if phase == Awaiting {
      CutAwaiting(r, name, st, a, t, rest);
    } else {
      CutBody(r, name, st, a, t, rest);
    }
  }

  /** A buffer that ends inside a comment is passed over, and what follows read from there. */
  lemma CommentResumes(r: Receiver, name: text, phase: Phase, lex: Lex, st: BitStr, a: text, b: text)
    requires Good(r, st) && EndState(lex, a, 0) == Some(Comment) && a != [] && b != []
    ensures SameOutcome(Run(r, name, phase, lex, st, a + b), Advanced(|a|, Run(r, name, phase, Comment, st, b)))
  {
    hide Run, Scan, EndState, Flush, Step, SameOutcome;
    ScanExtends(lex, a, b, 0);
    CommentShifts(Comment, a, b, 0);
    if NextToken(Comment, b) == None {
      NoToken(r, name, phase, lex, st, a + b);
      NoToken(r, name, phase, Comment, st, b);
      WantsMore(|a|, phase, lex, st);
    } else {
      CommentGoes(r, name, phase, lex, st, a, b);
    }
  }

  lemma WantsMore(n: nat, phase: Phase, lex: Lex, st: BitStr)
    ensures SameOutcome(WantMore(0, phase, lex, st), Advanced(n, WantMore(0, phase, Comment, st)))
  {
  }

  lemma CommentGoes(r: Receiver, name: text, phase: Phase, lex: Lex, st: BitStr, a: text, b: text)
    requires Good(r, st) && NextToken(Comment, b).Some? && NextToken(Comment, b).value.kind == CommentChunk
    requires var t := NextToken(Comment, b).value;
             NextToken(lex, a + b) == Some(Token(t.kind, |a| + t.length, t.next))
    ensures SameOutcome(Run(r, name, phase, lex, st, a + b), Advanced(|a|, Run(r, name, phase, Comment, st, b)))
  {
    hide Run, NextToken, Step;
    var t := NextToken(Comment, b).value;
    StepOver(r, name, phase, lex, st, a + b);
    StepOver(r, name, phase, Comment, st, b);
    DropBoth(a, b, t.length);
    AdvancedTwice(|a|, t.length, Run(r, name, phase, t.next, st, b[t.length..]));
  }

  /** The first buffer ends inside a comment. */
  lemma CutComment(r: Receiver, name: text, phase: Phase, lex: Lex, st: BitStr, a: text, b: text)
    requires Good(r, st) && EndState(lex, a, 0) == Some(Comment) && lex != TagStart
    requires Steady(r, name, phase, lex, st, a + b)
    ensures Resumes(r, name, Run(r, name, phase, lex, st, a), Run(r, name, phase, lex, st, a + b), a, b)
  {
    hide Run, EndState, SameOutcome, Steady;
    if a == [] {
      NothingYet(r, name, phase, lex, st);
      Unstarted(r, name, phase, lex, st, a, b);
    } else {
      CommentTaken(r, name, phase, lex, st, a);
      assert a[|a|..] + b == b;
      if b == [] {
        assert a + b == a;
        NothingYet(r, name, phase, Comment, st);
        Alike(Run(r, name, phase, lex, st, a), Advanced(|a|, WantMore(0, phase, Comment, st)));
        SteadyNothing(r, name, phase, Comment, st);
      } else {
        CommentResumes(r, name, phase, lex, st, a, b);
        SteadyComment(r, name, phase, lex, st, a, b);
      }
    }
  }

  lemma SteadyNothing(r: Receiver, name: text, phase: Phase, lex: Lex, st: BitStr)
    requires Good(r, st)
    ensures Steady(r, name, phase, lex, st, [])
  {
  }

  lemma SteadyComment(r: Receiver, name: text, phase: Phase, lex: Lex, st: BitStr, a: text, b: text)
    requires Good(r, st) && EndState(lex, a, 0) == Some(Comment) && a != [] && b != []
    requires Steady(r, name, phase, lex, st, a + b)
    ensures Steady(r, name, phase, Comment, st, b)
  {
    hide Run, Scan, EndState, Stray, NoStray;
    if r == Entities {
      assert (a + b)[|a|..] == b;
      if NoStray(a + b) {
        NoStrayDrops(a + b, |a|);
      } else {
        CommentResumes(r, name, phase, lex, st, a, b);
        ScanExtends(lex, a, b, 0);
        CommentShifts(Comment, a, b, 0);
        StrayAfterComment(name, phase, lex, st, a, b);
      }
    }
  }

  lemma StrayAfterComment(name: text, phase: Phase, lex: Lex, st: BitStr, a: text, b: text)
    requires b != [] && Run(Entities, name, phase, Comment, st, b).Finished?
    requires NextToken(Comment, b).Some? ==> NextToken(Comment, b).value.kind == CommentChunk
    requires NextToken(lex, a + b)
          == var t := NextToken(Comment, b);
             if t == None then None else Some(Token(t.value.kind, |a| + t.value.length, t.value.next))
    ensures Stray(name, phase, lex, st, a + b) == Stray(name, phase, Comment, st, b)
  {
    hide Run, NextToken, Stray, Convert, TagAction, Rereads;
    if NextToken(Comment, b) == None {
      NoToken(Entities, name, phase, Comment, st, b);
    } else {
      DropBoth(a, b, NextToken(Comment, b).value.length);
      StrayGoes(name, phase, lex, st, a + b);
      StrayGoes(name, phase, Comment, st, b);
    }
  }

  lemma Alike(x: Outcome, y: Outcome)
    requires x == y
    ensures SameOutcome(x, y)
  {
  }

  lemma CommentTaken(r: Receiver, name: text, phase: Phase, lex: Lex, st: BitStr, a: text)
    requires Good(r, st) && EndState(lex, a, 0) == Some(Comment) && a != []
    ensures Run(r, name, phase, lex, st, a) == WantMore(|a|, phase, Comment, st)
  {
    hide Run, Scan, EndState, Step;
    ScanExtends(lex, a, [], 0);
    assert NextToken(lex, a) == Some(Token(CommentChunk, |a|, Comment));
    StepOver(r, name, phase, lex, st, a);
    NothingYet(r, name, phase, Comment, st);
    assert a[|a|..] == [];
  }

  /** A first call that could do nothing. */
  lemma Unstarted(r: Receiver, name: text, phase: Phase, lex: Lex, st: BitStr, a: text, b: text)
    requires Good(r, st) && Run(r, name, phase, lex, st, a) == WantMore(0, phase, lex, st) && lex != TagStart
    requires Steady(r, name, phase, lex, st, a + b)
    ensures Resumes(r, name, Run(r, name, phase, lex, st, a), Run(r, name, phase, lex, st, a + b), a, b)
  {
    hide Run, Steady;
    assert a[0..] + b == a + b;
    AdvancedTwice(0, 0, Run(r, name, phase, lex, st, a + b));
  }

  // ----- any cutting -----------------------------------------------------------------------

  /** The calls an application makes: each with what the last one left, and the next piece of input. */
  function Feed(r: Receiver, name: text, phase: Phase, lex: Lex, st: BitStr, held: text, pieces: seq<text>): Outcome
    requires Good(r, st)
    decreases |pieces|
  {
    if pieces == [] then WantMore(0, phase, lex, st)
    else
      match Run(r, name, phase, lex, st, held + pieces[0])
      case WantMore(c, ph, lx, v) =>
        Advanced(c, Feed(r, name, ph, lx, v, (held + pieces[0])[c..], pieces[1..]))
      case out => out
  }

  lemma FeedFirst(r: Receiver, name: text, phase: Phase, lex: Lex, st: BitStr, held: text, pieces: seq<text>)
    requires Good(r, st) && pieces != []
    ensures var first := Run(r, name, phase, lex, st, held + pieces[0]);
            Feed(r, name, phase, lex, st, held, pieces)
            == if first.WantMore?
               then Advanced(first.consumed,
                      Feed(r, name, first.phase, first.lex, first.value, (held + pieces[0])[first.consumed..], pieces[1..]))
               else first
  {
    hide Run;
  }

  lemma FeedLast(r: Receiver, name: text, phase: Phase, lex: Lex, st: BitStr, held: text, pieces: seq<text>)
    requires Good(r, st) && |pieces| == 1
    ensures Feed(r, name, phase, lex, st, held, pieces) == Run(r, name, phase, lex, st, held + pieces[0])
  {
    FeedFirst(r, name, phase, lex, st, held, pieces);
    hide Run;
  }

  /**
    However a document is cut, its decoding comes to what it does in one call: same verdict,
    same total consumed, same value; and the same value so far when it is not complete.
   */
  lemma {:induction false} AnyCutting(r: Receiver, name: text, phase: Phase, lex: Lex, st: BitStr, held: text, pieces: seq<text>)
    requires Good(r, st) && lex != TagStart && pieces != []
    requires Steady(r, name, phase, lex, st, held + Join(pieces))
    ensures SameOutcome(Feed(r, name, phase, lex, st, held, pieces),
                        Run(r, name, phase, lex, st, held + Join(pieces)))
    decreases |pieces|
  {
    hide Run, Steady, SameOutcome, Feed;
    var a, b := held + pieces[0], Join(pieces[1..]);
    var whole, first := Run(r, name, phase, lex, st, a + b), Run(r, name, phase, lex, st, a);
    HeldJoin(held, pieces);
    RunSplit(r, name, phase, lex, st, a, b);
    FeedFirst(r, name, phase, lex, st, held, pieces);
    if |pieces| == 1 {
      FeedLast(r, name, phase, lex, st, held, pieces);
      Alike(first, whole);
    } else if !first.WantMore? {
      Alike(first, whole);
    } else {
      var left := a[first.consumed..];
      AnyCutting(r, name, first.phase, first.lex, first.value, left, pieces[1..]);
      SameLater(first.consumed, Feed(r, name, first.phase, first.lex, first.value, left, pieces[1..]),
                Run(r, name, first.phase, first.lex, first.value, left + b), whole);
    }
  }

  lemma HeldJoin(held: text, pieces: seq<text>)
    requires pieces != []
    ensures held + Join(pieces) == (held + pieces[0]) + Join(pieces[1..])
    ensures |pieces| == 1 ==> held + Join(pieces) == held + pieces[0]
  {
    var rest := Join(pieces[1..]);
    assert Join(pieces) == pieces[0] + rest;
    assert |pieces| == 1 ==> rest == [];
    hide Join;
    Associative(held, pieces[0], rest);
    assert (held + pieces[0]) + [] == held + pieces[0];
  }

  lemma SameLater(n: nat, x: Outcome, y: Outcome, whole: Outcome)
    requires SameOutcome(x, y) && SameOutcome(whole, Advanced(n, y))
    ensures SameOutcome(Advanced(n, x), whole)
  {
  }

  // ----- where the cutting shows ------------------------------------------------------------

  /** Entity text decoded into another value ends alike, with as many octets more. */
  lemma {:induction false} RunRebased(name: text, phase: Phase, lex: Lex, st: BitStr, st': BitStr, buf: text)
    ensures var x, y := Run(Entities, name, phase, lex, st, buf), Run(Entities, name, phase, lex, st', buf);
            x.Finished? && y.Finished? ==>
              |x.value.buf| - |st.buf| == |y.value.buf| - |st'.buf|
    decreases |buf|
  {
    hide Step;
    StepRebased(name, phase, lex, st, st', buf);
    var s, s' := Step(Entities, name, phase, lex, st, buf), Step(Entities, name, phase, lex, st', buf);
    if s.Goes? {
      RunRebased(name, s.phase, s.lex, s.value, s'.value, buf[s.n..]);
    }
  }

  lemma StepRebased(name: text, phase: Phase, lex: Lex, st: BitStr, st': BitStr, buf: text)
    ensures var s, s' := Step(Entities, name, phase, lex, st, buf), Step(Entities, name, phase, lex, st', buf);
            && (s.Goes? <==> s'.Goes?)
            && (s.Goes? ==>
                  && s'.n == s.n && s'.phase == s.phase && s'.lex == s.lex
                  && |s.value.buf| - |st.buf| == |s'.value.buf| - |st'.buf|)
            && (s.Ends? && s.out.Finished? && s'.out.Finished? ==>
                  |s.out.value.buf| - |st.buf| == |s'.out.value.buf| - |st'.buf|)
  {
    hide Expand, CheckTag, ControlFrom, NextToken;
  }

  /** A reference read whole stores less than its characters one by one. */
  lemma RereadIsShorter(st: BitStr, u: text)
    requires var p := PieceOf([AMPERSAND] + u); p.Stored? && p.length > 1
    ensures var c, d := Convert(Entities, st, [AMPERSAND] + u, true), Convert(Entities, Append(st, [AMPERSAND]), u, true);
            c.Done? && d.Done? ==> |c.value.buf| < |d.value.buf|
  {
    hide PieceOf, Expand;
    var t := [AMPERSAND] + u;
    var p := PieceOf(t);
    PieceIsPlain(t);
    ExpandCases(t, true);
    var plain, w := u[..p.length - 1], u[p.length - 1..];
    assert u == plain + w && t[p.length..] == w;
    forall i | 0 <= i < |plain| ensures plain[i] != AMPERSAND { assert plain[i] == t[i + 1]; }
    PlainFirst(plain, w);
  }

  /** Text without ampersands in front of other text is taken as it is. */
  lemma {:induction false} PlainFirst(plain: text, w: text)
    requires forall i :: 0 <= i < |plain| ==> plain[i] != AMPERSAND
    ensures Expand(plain + w, true) == Onto(Taken(|plain|, plain), Expand(w, true))
  {
    if plain == [] {
      assert plain + w == w;
      OntoNothing(Expand(w, true));
    } else {
      var t := plain + w;
      LiteralRead(t, true);
      assert t[1..] == plain[1..] + w && plain == [plain[0]] + plain[1..];
      PlainFirst(plain[1..], w);
      OntoTwice(Taken(1, [plain[0]]), Taken(|plain| - 1, plain[1..]), Expand(w, true));
    }
  }

  /** An ampersand that makes a reference with what follows does not come to the ampersand kept. */
  lemma RereadDiffers(name: text, st: BitStr, rest: text)
    requires Rereads(rest) && Run(Entities, name, InBody, Text, Append(st, [AMPERSAND]), rest).Finished?
    ensures Run(Entities, name, InBody, Text, st, [AMPERSAND] + rest)
         != Advanced(1, Run(Entities, name, InBody, Text, Append(st, [AMPERSAND]), rest))
  {
    hide Run, Convert, PieceOf, Rereads;
    var k, v := TextLength(rest), Append(st, [AMPERSAND]);
    TextLengthIs(rest);
    var u, tag := rest[..k], rest[k..];
    assert rest == u + tag;
    if tag == [] {
      assert u + [] == u;
      RunOnlyText(Entities, name, v, u);
    } else {
      RereadBefore(name, st, u, tag);
    }
  }

  lemma RereadBefore(name: text, st: BitStr, u: text, tag: text)
    requires tag != [] && tag[0] == LESS && NoTag(u) && Rereads(u + tag) && TextLength(u + tag) == |u|
    requires Run(Entities, name, InBody, Text, Append(st, [AMPERSAND]), u + tag).Finished?
    ensures Run(Entities, name, InBody, Text, st, [AMPERSAND] + (u + tag))
         != Advanced(1, Run(Entities, name, InBody, Text, Append(st, [AMPERSAND]), u + tag))
  {
    hide Run, Convert, PieceOf;
    var v, t := Append(st, [AMPERSAND]), [AMPERSAND] + u;
    assert [AMPERSAND] + (u + tag) == t + tag;
    WholeText(Entities, name, v, u, tag);
    WholeText(Entities, name, st, t, tag);
    var c, d := Convert(Entities, st, t, true), Convert(Entities, v, u, true);
    if c.Done? {
      if PieceOf(t).ZeroReference? { ZeroAborts(st, t); }
      assert (u + tag)[..|u|] == u;
      RereadIsShorter(st, u);
      RunRebased(name, InBody, Text, c.value, d.value, tag);
    }
  }

  lemma ZeroAborts(st: BitStr, t: text)
    requires t != [] && PieceOf(t).ZeroReference?
    ensures Convert(Entities, st, t, true) == Aborted
  {
    hide PieceOf;
    ExpandCases(t, true);
  }

  /** A token at the front of a document is the token at the front of any beginning that goes on after it. */
  lemma TokenWithin(lex: Lex, a: text, b: text)
    requires NextToken(lex, a + b).Some? && NextToken(lex, a + b).value.length < |a|
    ensures NextToken(lex, a) == NextToken(lex, a + b)
  {
    ScanExtends(lex, a, b, 0);
    var end := EndState(lex, a, 0);
    if end.Some? { ScanFrom(end.value, a + b, |a|); }
  }

  lemma {:induction false} ScanFrom(state: Lex, buf: text, p: nat)
    requires p <= |buf|
    ensures Scan(state, buf, p).Some? ==> Scan(state, buf, p).value.length >= p
    decreases |buf| - p
  {
    if p < |buf| && Act(state, buf[p], p == 0).Go? {
      ScanFrom(Act(state, buf[p], p == 0).next, buf, p + 1);
    }
  }

  /** A document that is all one token of text does not finish. */
  lemma FilledNotFinished(name: text, lex: Lex, st: BitStr, doc: text)
    requires lex != TagStart && NextToken(lex, doc) == Some(Token(TextChunk, |doc|, Text))
    ensures !Run(Entities, name, InBody, lex, st, doc).Finished?
  {
    hide Run, Scan, Convert;
    ScanExtends(lex, doc, [], 0);
    if EndState(lex, doc, 0).Some? {
      TextOnly(lex, doc, 0);
      assert doc[0..] == doc;
      RunOnlyText(Entities, name, st, doc);
    } else {
      StrayIsTwo(lex, doc, 0);
      if doc[1] == AMPERSAND {
        assert doc == [LESS, AMPERSAND];
        StrayWaits(name, lex, st);
      } else {
        StrayText(Entities, st, doc);
        StepText(Entities, name, lex, st, doc);
        var c := Convert(Entities, st, doc, false);
        assert doc[..2] == doc && doc[2..] == [];
        if c.Done? { NothingYet(Entities, name, InBody, Text, c.value); }
      }
    }
  }

  lemma AdvancedDiffers(n: nat, x: Outcome, y: Outcome)
    requires x != y
    ensures Advanced(n, x) != Advanced(n, y)
  {
  }

  /** Two buffers: what the first call left, and the second buffer. */
  lemma FeedTwo(r: Receiver, name: text, phase: Phase, lex: Lex, st: BitStr, a: text, b: text)
    requires Good(r, st)
    ensures var first := Run(r, name, phase, lex, st, a);
            Feed(r, name, phase, lex, st, [], [a, b])
            == if first.WantMore?
               then Advanced(first.consumed, Run(r, name, first.phase, first.lex, first.value, a[first.consumed..] + b))
               else first
  {
    hide Run, Feed;
    var first := Run(r, name, phase, lex, st, a);
    assert [] + a == a;
    FeedFirst(r, name, phase, lex, st, [], [a, b]);
    if first.WantMore? {
      FeedLast(r, name, first.phase, first.lex, first.value, a[first.consumed..], [a, b][1..]);
    }
  }

  /** A turn of the loop within the first buffer. */
  lemma FedStep(name: text, phase: Phase, lex: Lex, st: BitStr, a: text, b: text)
    requires Step(Entities, name, phase, lex, st, a).Goes?
    ensures var s := Step(Entities, name, phase, lex, st, a);
            Feed(Entities, name, phase, lex, st, [], [a, b])
            == Advanced(s.n, Feed(Entities, name, s.phase, s.lex, s.value, [], [a[s.n..], b]))
  {
    hide Run, Step, Feed;
    var s := Step(Entities, name, phase, lex, st, a);
    StepRun(name, phase, lex, st, a);
    FeedTwo(Entities, name, phase, lex, st, a, b);
    FeedTwo(Entities, name, s.phase, s.lex, s.value, a[s.n..], b);
    var next := Run(Entities, name, s.phase, s.lex, s.value, a[s.n..]);
    if next.WantMore? {
      assert a[s.n + next.consumed..] == a[s.n..][next.consumed..];
      AdvancedTwice(s.n, next.consumed,
        Run(Entities, name, next.phase, next.lex, next.value, a[s.n..][next.consumed..] + b));
    }
  }

  lemma StepRun(name: text, phase: Phase, lex: Lex, st: BitStr, doc: text)
    requires Step(Entities, name, phase, lex, st, doc).Goes?
    ensures var s := Step(Entities, name, phase, lex, st, doc);
            Run(Entities, name, phase, lex, st, doc)
            == Advanced(s.n, Run(Entities, name, s.phase, s.lex, s.value, doc[s.n..]))
  {
    hide Step;
  }

  /** A document that finishes makes the same turn when it is cut later on. */
  lemma StepWithin(name: text, phase: Phase, lex: Lex, st: BitStr, a: text, b: text)
    requires lex != TagStart && Run(Entities, name, phase, lex, st, a + b).Finished?
    requires Step(Entities, name, phase, lex, st, a + b).Goes?
    requires Step(Entities, name, phase, lex, st, a + b).n < |a|
    ensures Step(Entities, name, phase, lex, st, a) == Step(Entities, name, phase, lex, st, a + b)
  {
    hide Run, Scan;
    var t := NextToken(lex, a + b).value;
    StepLength(name, phase, lex, st, a + b);
    TokenWithin(lex, a, b);
    SameStep(Entities, name, phase, lex, st, a, b);
  }

  /** In a document that finishes a turn takes a whole token. */
  lemma StepLength(name: text, phase: Phase, lex: Lex, st: BitStr, doc: text)
    requires lex != TagStart && Run(Entities, name, phase, lex, st, doc).Finished?
    requires Step(Entities, name, phase, lex, st, doc).Goes?
    ensures NextToken(lex, doc).Some? && Step(Entities, name, phase, lex, st, doc).n == NextToken(lex, doc).value.length
  {
    hide Run, Convert, TagAction, NextToken;
    var t := NextToken(lex, doc).value;
    if phase == InBody && t.kind == TextChunk && t.length == |doc| {
      FilledNotFinished(name, lex, st, doc);
    }
  }

  lemma StrayToken(lex: Lex, rest: text)
    requires rest != [] && NextToken(lex, [LESS, AMPERSAND] + rest) == Some(Token(TextChunk, 2, Text))
    ensures NextToken(lex, [LESS, AMPERSAND]) == Some(Token(TextChunk, 2, Text))
  {
    var cut := [LESS, AMPERSAND];
    var doc := cut + rest;
    ScanExtends(lex, cut, rest, 0);
    var end := EndState(lex, cut, 0);
    assert cut[0..][0] == LESS;
    if end.Some? {
      var act := Act(end.value, doc[2], false);
      if act.Go? { ScanFrom(act.next, doc, 3); }
      if end.value == Text {
        TextOnly(lex, cut, 0);
      }
    }
  }

  /** Cut after a stray ampersand at the front. */
  lemma CutHere(name: text, lex: Lex, st: BitStr, doc: text)
    requires StrayHere(InBody, lex, doc) && Run(Entities, name, InBody, lex, st, doc).Finished?
    ensures Feed(Entities, name, InBody, lex, st, [], [doc[..2], doc[2..]])
         != Run(Entities, name, InBody, lex, st, doc)
  {
    hide Run, NextToken, Feed;
    var cut, rest, v := [LESS, AMPERSAND], doc[2..], Append(st, [LESS]);
    assert |doc[..NextToken(lex, doc).value.length]| == 2;
    assert doc == cut + rest && cut[1..] + rest == [AMPERSAND] + rest;
    assert rest == [] ==> [AMPERSAND] + rest == [AMPERSAND];
    StrayToken(lex, rest);
    StrayWaits(name, lex, st);
    StrayKept(name, lex, st, rest);
    FeedTwo(Entities, name, InBody, lex, st, cut, rest);
    RereadDiffers(name, v, rest);
    var next := Run(Entities, name, InBody, Text, Append(v, [AMPERSAND]), rest);
    AdvancedDiffers(1, Run(Entities, name, InBody, Text, v, [AMPERSAND] + rest), Advanced(1, next));
    AdvancedTwice(1, 1, next);
  }

  /** Cut after the stray ampersand, the document decodes differently. */
  lemma {:induction false} StrayCut(name: text, phase: Phase, lex: Lex, st: BitStr, doc: text) returns (a: text, b: text)
    requires lex != TagStart && Run(Entities, name, phase, lex, st, doc).Finished?
    requires Stray(name, phase, lex, st, doc)
    ensures doc == a + b && a != []
    ensures Feed(Entities, name, phase, lex, st, [], [a, b]) != Run(Entities, name, phase, lex, st, doc)
    decreases |doc|
  {
    hide Run, Step, Feed;
    if StrayHere(phase, lex, doc) {
      a, b := doc[..2], doc[2..];
      CutHere(name, lex, st, doc);
    } else {
      hide StrayHere;
      var s := Step(Entities, name, phase, lex, st, doc);
      StepRun(name, phase, lex, st, doc);
      var a';
      a', b := StrayCut(name, s.phase, s.lex, s.value, doc[s.n..]);
      a := doc[..s.n] + a';
      assert doc == a + b && a[s.n..] == a';
      StepWithin(name, phase, lex, st, a, b);
      FedStep(name, phase, lex, st, a, b);
      AdvancedDiffers(s.n, Feed(Entities, name, s.phase, s.lex, s.value, [], [a', b]),
                      Run(Entities, name, s.phase, s.lex, s.value, doc[s.n..]));
    }
  }

  /**
    Entity documents that one call finishes: every cutting comes to the same exactly
    when no stray ampersand comes up in that call.
   */
  lemma CuttingShows(name: text, phase: Phase, lex: Lex, st: BitStr, doc: text)
    requires lex != TagStart && Run(Entities, name, phase, lex, st, doc).Finished?
    ensures (forall pieces: seq<text> | pieces != [] && Join(pieces) == doc ::
               Feed(Entities, name, phase, lex, st, [], pieces) == Run(Entities, name, phase, lex, st, doc))
            <==> !Stray(name, phase, lex, st, doc)
  {
    hide Run, Feed, Stray, Join;
    if Stray(name, phase, lex, st, doc) {
      var a, b := StrayCut(name, phase, lex, st, doc);
      JoinTwo(a, b);
    } else {
      forall pieces: seq<text> | pieces != [] && Join(pieces) == doc
        ensures Feed(Entities, name, phase, lex, st, [], pieces) == Run(Entities, name, phase, lex, st, doc)
      {
        assert [] + Join(pieces) == doc;
        AnyCutting(Entities, name, phase, lex, st, [], pieces);
      }
    }
  }

  lemma JoinTwo(a: text, b: text)
    ensures Join([a, b]) == a + b
  {
    assert [a, b][1..] == [b] && [b][1..] == [];
    assert Join([b]) == b + Join([]) == b;
  }
}
