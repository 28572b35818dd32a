/**
  Documents of any layout: text and comments in front of the element, attributes in its
  tags, comments between its text. What the decoder makes of them, told by their parts.
 */
module XerDocuments {
  import opened Octets
  import opened Decimal
  import opened BitString
  import opened OctetMeaning
  import opened OctetText
  import opened XerEscape
  import opened XerStream
  import opened XerRestart
  import opened XerTags

  /** A stretch of text without `<`, or a comment. */
  datatype Item = Words(t: text) | Remark(body: text)

  function ItemText(i: Item): text {
    match i
    case Words(t) => t
    case Remark(body) => [LESS, '!' as int, '-' as int, '-' as int] + (body + DASHES)
  }

  function ItemsText(items: seq<Item>): text {
    if items == [] then [] else ItemText(items[0]) + ItemsText(items[1..])
  }

  /** Every stretch of text ends at a comment or at the end; every comment at its first `-->`. */
  ghost predicate Layout(items: seq<Item>) {
    && (forall i :: 0 <= i < |items| ==>
          if items[i].Words? then items[i].t != [] && NoTag(items[i].t) else EndsComment(items[i].body + DASHES))
    && (forall i :: 0 <= i < |items| - 1 ==> items[i].Remark? || items[i + 1].Remark?)
  }

  /** What the receiver makes of the stretches of text, each known to be complete. */
  function Received(r: Receiver, st: BitStr, items: seq<Item>): (c: Conversion)
    requires Good(r, st)
    ensures c.Done? ==> Good(r, c.value)
    decreases |items|
  {
    if items == [] then Done(0, st)
    else if items[0].Remark? then Received(r, st, items[1..])
    else
      match Convert(r, st, items[0].t, true)
      case Done(_, v) => Received(r, v, items[1..])
      case c => c
  }

  lemma LayoutRest(items: seq<Item>)
    requires Layout(items) && items != []
    ensures Layout(items[1..])
  {
    assert forall i :: 0 <= i < |items[1..]| ==> items[1..][i] == items[i + 1];
  }

  /** After a stretch of text comes a bracket. */
  lemma BracketNext(items: seq<Item>, rest: text)
    requires Layout(items) && items != [] && items[0].Words? && rest != [] && rest[0] == LESS
    ensures var next := ItemsText(items[1..]) + rest; next != [] && next[0] == LESS
  {
    if |items| > 1 {
      assert items[1].Remark? && items[1..][0] == items[1];
      assert ItemText(items[1])[0] == LESS;
    }
  }

  lemma RemarkSkipped(r: Receiver, name: text, phase: Phase, st: BitStr, body: text, rest: text)
    requires Good(r, st) && EndsComment(body + DASHES)
    ensures var t := ItemText(Remark(body));
            Run(r, name, phase, Text, st, t + rest) == Advanced(|t|, Run(r, name, phase, Text, st, rest))
  {
    hide Run, NextToken, EndsComment;
    var t := ItemText(Remark(body));
    CommentToken(body, rest);
    StepOver(r, name, phase, Text, st, t + rest);
    assert (t + rest)[|t|..] == rest;
  }

  /** Before the element text and comments are passed over. */
  lemma {:induction false} PrologRun(r: Receiver, name: text, st: BitStr, items: seq<Item>, rest: text)
    requires Good(r, st) && Layout(items) && rest != [] && rest[0] == LESS
    ensures Run(r, name, Awaiting, Text, st, ItemsText(items) + rest)
         == Advanced(|ItemsText(items)|, Run(r, name, Awaiting, Text, st, rest))
    decreases |items|
  {
    hide Run, ItemText, Layout, Good, Advanced, ItemsText;
    if items == [] {
      NoItems();
      assert [] + rest == rest;
      AdvancedTwice(0, 0, Run(r, name, Awaiting, Text, st, rest));
    } else {
      var t, u := ItemText(items[0]), ItemsText(items[1..]);
      LayoutRest(items);
      PrologRun(r, name, st, items[1..], rest);
      FirstItem(items, rest);
      ItemPassed(r, name, st, items, rest);
      AdvancedTwice(|t|, |u|, Run(r, name, Awaiting, Text, st, rest));
    }
  }

  lemma NoItems()
    ensures ItemsText([]) == []
  {
  }

  lemma FirstItem(items: seq<Item>, rest: text)
    requires items != []
    ensures ItemsText(items) + rest == ItemText(items[0]) + (ItemsText(items[1..]) + rest)
    ensures |ItemsText(items)| == |ItemText(items[0])| + |ItemsText(items[1..])|
  {
    hide ItemText;
  }

  lemma ItemPassed(r: Receiver, name: text, st: BitStr, items: seq<Item>, rest: text)
    requires Good(r, st) && Layout(items) && items != [] && rest != [] && rest[0] == LESS
    ensures var next := ItemsText(items[1..]) + rest;
            Run(r, name, Awaiting, Text, st, ItemText(items[0]) + next)
            == Advanced(|ItemText(items[0])|, Run(r, name, Awaiting, Text, st, next))
  {
    hide Run, ItemText;
    var u := ItemsText(items[1..]);
    if items[0].Words? {
      BracketNext(items, rest);
      WordsText(items[0].t);
      RunAwaiting(r, name, st, items[0].t, u + rest);
    } else {
      RemarkSkipped(r, name, Awaiting, st, items[0].body, u + rest);
    }
  }

  lemma WordsText(t: text)
    ensures ItemText(Words(t)) == t
  {
  }

  /** Inside the element: text and comments received, and then a bracket. */
  ghost predicate ItemsTaken(r: Receiver, name: text, st: BitStr, items: seq<Item>, rest: text)
    requires Good(r, st)
  {
    var c := Received(r, st, items);
    Run(r, name, InBody, Text, st, ItemsText(items) + rest)
    == if c.Done? then Advanced(|ItemsText(items)|, Run(r, name, InBody, Text, c.value, rest)) else Refusal(c)
  }

  lemma WordsTaken(r: Receiver, name: text, st: BitStr, items: seq<Item>, rest: text)
    requires Good(r, st) && Layout(items) && items != [] && items[0].Words? && rest != [] && rest[0] == LESS
    requires var c := Convert(r, st, items[0].t, true); c.Done? ==> ItemsTaken(r, name, c.value, items[1..], rest)
    ensures ItemsTaken(r, name, st, items, rest)
  {
    hide Run, Convert, Layout;
    var t, u := items[0].t, ItemsText(items[1..]);
    assert ItemsText(items) + rest == t + (u + rest);
    BracketNext(items, rest);
    assert NoTag(t) by { WordsPlain(items); }
    WholeText(r, name, st, t, u + rest);
    WholeLength(r, st, t);
    var c := Convert(r, st, t, true);
    if c.Done? {
      var d := Received(r, c.value, items[1..]);
      if d.Done? { AdvancedTwice(|t|, |u|, Run(r, name, InBody, Text, d.value, rest)); }
    }
  }

  lemma WordsPlain(items: seq<Item>)
    requires Layout(items) && items != [] && items[0].Words?
    ensures NoTag(items[0].t)
  {
  }

  lemma RemarkTaken(r: Receiver, name: text, st: BitStr, items: seq<Item>, rest: text)
    requires Good(r, st) && Layout(items) && items != [] && items[0].Remark?
    requires ItemsTaken(r, name, st, items[1..], rest)
    ensures ItemsTaken(r, name, st, items, rest)
  {
    hide Run, ItemText;
    var t, u := ItemText(items[0]), ItemsText(items[1..]);
    assert ItemsText(items) + rest == t + (u + rest);
    RemarkSkipped(r, name, InBody, st, items[0].body, u + rest);
    var d := Received(r, st, items[1..]);
    if d.Done? { AdvancedTwice(|t|, |u|, Run(r, name, InBody, Text, d.value, rest)); }
  }

  /** Inside the element each stretch of text goes to the receiver by itself, comments to nobody. */
  lemma {:induction false} ItemsRun(r: Receiver, name: text, st: BitStr, items: seq<Item>, rest: text)
    requires Good(r, st) && Layout(items) && rest != [] && rest[0] == LESS
    ensures ItemsTaken(r, name, st, items, rest)
    decreases |items|
  {
    hide Run, Convert, Layout;
    if items == [] {
      assert [] + rest == rest;
      AdvancedTwice(0, 0, Run(r, name, InBody, Text, st, rest));
    } else {
      LayoutRest(items);
      if items[0].Remark? {
        ItemsRun(r, name, st, items[1..], rest);
        RemarkTaken(r, name, st, items, rest);
      } else {
        ConvertKeeps(r, st, items[0].t);
        var c := Convert(r, st, items[0].t, true);
        if c.Done? { ItemsRun(r, name, c.value, items[1..], rest); }
        WordsTaken(r, name, st, items, rest);
      }
    }
  }

  lemma ConvertKeeps(r: Receiver, st: BitStr, t: text)
    requires Good(r, st)
    ensures Convert(r, st, t, true).Done? ==> Good(r, Convert(r, st, t, true).value)
  {
  }

  lemma WholeLength(r: Receiver, st: BitStr, t: text)
    requires Good(r, st)
    ensures Convert(r, st, t, true).Done? ==> Convert(r, st, t, true).length == |t|
  {
  }

  // ----- tags --------------------------------------------------------------------------------

  /** One tag, from its bracket to the one that closes it outside quotes. */
  ghost predicate OneTag(tag: text) {
    exists front, parts ::
      && TagFront(front) && (forall i :: 0 <= i < |parts| ==> WellFormed(parts[i]))
      && tag == front + PartsText(parts) + [GREATER]
  }

  lemma TagRun(r: Receiver, name: text, phase: Phase, st: BitStr, tag: text, rest: text)
    requires Good(r, st) && OneTag(tag)
    ensures var e := TagAction(r, name, phase, st, tag);
            Run(r, name, phase, Text, st, tag + rest)
            == if e.Refuse? then Failed
               else if e.Leave? then Finished(|tag|, e.value)
               else Advanced(|tag|, Run(r, name, e.phase, Text, e.value, rest))
  {
    hide Run, TagAction, TagFront, WellFormed, NextToken;
    var front, parts :| TagFront(front) && (forall i :: 0 <= i < |parts| ==> WellFormed(parts[i]))
      && tag == front + PartsText(parts) + [GREATER];
    TagToken(front, parts, rest);
    assert (tag + rest)[..|tag|] == tag && (tag + rest)[|tag|..] == rest;
    StepTag(r, name, phase, Text, st, tag + rest);
  }

  /** An empty tag that stands for a control character in a UTF-8 string. */
  ghost predicate Controls(r: Receiver, tag: text, c: octet) {
    r == Entities && c < 32 && TableEntry(c) == tag
  }

  lemma ActionInFront(r: Receiver, name: text, st: BitStr, tag: text)
    requires Good(r, st)
    ensures var ct, e := CheckTag(tag, name), TagAction(r, name, Awaiting, st, tag);
            if ct == Opening then e == Proceed(InBody, st)
            else if ct == Both then e == Leave(st)
            else if ct == UnknownBoth && r == Entities && ControlFrom(tag, 0).Some? then
              e == Leave(Append(st, [ControlFrom(tag, 0).value]))
            else e == Refuse
  {
    hide CheckTag, ControlFrom, Convert;
    ConvertNothing(r, st, true);
  }

  lemma ActionInside(r: Receiver, name: text, st: BitStr, tag: text)
    requires Good(r, st)
    ensures var ct, e := CheckTag(tag, name), TagAction(r, name, InBody, st, tag);
            if ct == Closing then e == Leave(st)
            else if ct == UnknownBoth && r == Entities && ControlFrom(tag, 0).Some? then
              e == Proceed(InBody, Append(st, [ControlFrom(tag, 0).value]))
            else e == Refuse
  {
    hide CheckTag, ControlFrom, Convert;
  }

  lemma {:induction false} NoNul(body: text, name: text, i: nat, ct: TagCheck)
    requires i <= |body| && i <= |name| && 0 !in body && ct != Broken
    ensures MatchName(body, name, i, ct) != Broken
    decreases |body| - i
  {
    assert i < |body| ==> body[i] in body;
    if i < |body| && i < |name| && body[i] == name[i] {
      NoNul(body, name, i + 1, ct);
    }
  }

  lemma EmptyChecked(body: text, name: text)
    requires body != [] && body[0] != SLASH && 0 !in body
    ensures CheckTag([LESS] + body + [SLASH, GREATER], name) in {Both, UnknownBoth}
  {
    hide MatchName;
    var tag := [LESS] + body + [SLASH, GREATER];
    Framed([LESS], body, [SLASH, GREATER]);
    assert tag[1..|tag| - 1] == body + [SLASH];
    assert (body + [SLASH])[..|body|] == body;
    assert tag[1] == body[0];
    KindKept(body, name);
    NoNul(body, name, 0, Both);
  }

  /** A control character's tag is an empty tag, of the element's name or another. */
  lemma ControlChecked(c: octet, name: text)
    requires IsControl(c)
    ensures CheckTag(TableEntry(c), name) in {Both, UnknownBoth}
  {
    hide CheckTag;
    var body := Ascii(NAMES[c]);
    NamesAreLetters(c);
    forall i | 0 <= i < |body| ensures body[i] != 0 && body[i] != SLASH {
      assert body[i] == NAMES[c][i] as int % 128;
    }
    EntryName(c);
    hide TableEntry, Ascii;
    EmptyChecked(body, name);
  }

  lemma ControlOnce(r: Receiver, tag: text, c: octet)
    requires Controls(r, tag, c) && |tag| > 1
    ensures IsControl(c) && ControlFrom(tag, 0) == Some(c)
  {
    ControlIsFound(c, 0);
  }

  /** In front of the element: what any tag does, told by its name. */
  lemma TagInFront(r: Receiver, name: text, st: BitStr, tag: text, rest: text)
    requires Good(r, st) && OneTag(tag) && CleanName(name)
    ensures var out := Run(r, name, Awaiting, Text, st, tag + rest);
            if exists tail :: Opens(tag, name, tail) then out == Advanced(|tag|, Run(r, name, InBody, Text, st, rest))
            else if exists tail :: Empties(tag, name, tail) then out == Finished(|tag|, st)
            else (exists c: octet :: Controls(r, tag, c) && out == Finished(|tag|, Append(st, [c])))
                 || ((forall c: octet :: !Controls(r, tag, c)) && out == Failed)
  {
    hide Run, CheckTag, OneTag, TagAction, Opens, Closes, Empties, Controls;
    TagRun(r, name, Awaiting, st, tag, rest);
    CheckTagIs(tag, name);
    ActionInFront(r, name, st, tag);
    ControlTold(r, tag, name);
  }

  /** Inside it: the closing tag ends the element, a control character's tag adds it, any other tag fails. */
  lemma TagInside(r: Receiver, name: text, st: BitStr, tag: text, rest: text)
    requires Good(r, st) && OneTag(tag) && CleanName(name)
    ensures var out := Run(r, name, InBody, Text, st, tag + rest);
            if exists tail :: Closes(tag, name, tail) then out == Finished(|tag|, st)
            else if exists tail :: Empties(tag, name, tail) then out == Failed
            else (exists c: octet :: Controls(r, tag, c) && out == Advanced(|tag|, Run(r, name, InBody, Text, Append(st, [c]), rest)))
                 || ((forall c: octet :: !Controls(r, tag, c)) && out == Failed)
  {
    hide Run, CheckTag, OneTag, TagAction, Opens, Closes, Empties, Controls;
    TagRun(r, name, InBody, st, tag, rest);
    CheckTagIs(tag, name);
    ActionInside(r, name, st, tag);
    ControlTold(r, tag, name);
  }

  /** Whether a tag of another name stands for a control character, and for which. */
  lemma ControlTold(r: Receiver, tag: text, name: text)
    requires OneTag(tag)
    ensures if r == Entities && ControlFrom(tag, 0).Some? then Controls(r, tag, ControlFrom(tag, 0).value)
            else forall c: octet :: !Controls(r, tag, c)
    ensures forall c: octet :: Controls(r, tag, c) ==> CheckTag(tag, name) in {Both, UnknownBoth}
  {
    hide CheckTag, TableEntry, OneTag;
    TagLength(tag);
    forall c: octet | Controls(r, tag, c) ensures ControlFrom(tag, 0) == Some(c) && IsControl(c) {
      ControlOnce(r, tag, c);
    }
    forall c: octet | Controls(r, tag, c)
      ensures CheckTag(tag, name) in {Both, UnknownBoth}
    {
      ControlOnce(r, tag, c);
      ControlChecked(c, name);
    }
  }

  lemma TagLength(tag: text)
    requires OneTag(tag)
    ensures |tag| > 1
  {
  }

  // ----- whole documents -------------------------------------------------------------------------

  /** Anything in front, an opening tag, text and comments, a closing tag. */
  ghost predicate Element(name: text, prolog: seq<Item>, open: text, items: seq<Item>, close: text) {
    && CleanName(name) && Layout(prolog) && Layout(items) && OneTag(open) && OneTag(close)
    && (exists tail :: Opens(open, name, tail)) && (exists tail :: Closes(close, name, tail))
  }

  function ElementText(prolog: seq<Item>, open: text, items: seq<Item>, close: text): text {
    ItemsText(prolog) + (open + (ItemsText(items) + close))
  }

  lemma TagStarts(tag: text)
    requires OneTag(tag)
    ensures tag != [] && tag[0] == LESS
  {
  }

  /** Whatever its layout, an element is read to its end, and comes to what its stretches of text convert to. */
  lemma ElementRead(r: Receiver, name: text, st: BitStr, prolog: seq<Item>, open: text, items: seq<Item>, close: text)
    requires Good(r, st) && Element(name, prolog, open, items, close)
    ensures var doc, c := ElementText(prolog, open, items, close), Received(r, st, items);
            Run(r, name, Awaiting, Text, st, doc) == if c.Done? then Finished(|doc|, c.value) else Refusal(c)
  {
    hide Run, OneTag, Layout, Opens, Closes, Empties, Controls, Convert;
    var body := ItemsText(items) + close;
    TagStarts(open);
    TagStarts(close);
    PrologRun(r, name, st, prolog, open + body);
    TagInFront(r, name, st, open, body);
    ItemsRun(r, name, st, items, close);
    var c := Received(r, st, items);
    if c.Done? {
      TagInside(r, name, c.value, close, []);
      assert close + [] == close;
    }
  }

  /** An empty tag of the name is the empty value, whatever stands in front. */
  lemma EmptyElementRead(r: Receiver, name: text, st: BitStr, prolog: seq<Item>, tag: text)
    requires Good(r, st) && CleanName(name) && Layout(prolog) && OneTag(tag)
    requires exists tail :: Empties(tag, name, tail)
    ensures Run(r, name, Awaiting, Text, st, ItemsText(prolog) + tag) == Finished(|ItemsText(prolog) + tag|, st)
  {
    hide Run, OneTag, Layout, CheckTag, Opens, Closes, Empties, Controls;
    TagStarts(tag);
    CheckTagIs(tag, name);
    PrologRun(r, name, st, prolog, tag);
    TagInFront(r, name, st, tag, []);
    assert tag + [] == tag;
  }

  /** And so however the document is cut, entity text with a stray `<&` apart. */
  lemma ElementCut(r: Receiver, name: text, st: BitStr, prolog: seq<Item>, open: text, items: seq<Item>, close: text,
                   pieces: seq<text>)
    requires Good(r, st) && Element(name, prolog, open, items, close)
    requires pieces != [] && Join(pieces) == ElementText(prolog, open, items, close)
    requires r == Entities ==> NoStray(Join(pieces))
    ensures var c := Received(r, st, items);
            Feed(r, name, Awaiting, Text, st, [], pieces)
            == if c.Done? then Finished(|Join(pieces)|, c.value) else Refusal(c)
  {
    hide Run, Feed, Received, Element, ElementText, NoStray;
    assert [] + Join(pieces) == Join(pieces);
    ElementRead(r, name, st, prolog, open, items, close);
    AnyCutting(r, name, Awaiting, Text, st, [], pieces);
  }
}
