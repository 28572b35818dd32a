/**
  UTF-8 strings as XER text: control characters become empty tags, and `&`, `<`
  and `>` references (section 11.15 of ITU-T X.680 as the runtime reads it).
 */
module XerEscape {
  import opened Octets
  import opened Decimal
  import opened OctetText

  /**
    Names of the control characters, as the octets of the table spell them; tab, line feed
    and carriage return go as they are.
   */
  const NAMES: seq<string> := [
    "nul", "soh", "stx", "etx", "eot", "enq", "ack", "bel", "bs", "", "", "vt", "ff", "", "so", "si",
    "dle", "dc1", "dc2", "dc3", "dc4", "nak", "syn", "etb", "can", "em", "sub", "esc", "is4", "is3", "is2", "is1"]

  function Ascii(s: string): (t: text)
    ensures |t| == |s|
  {
    seq(|s|, i requires 0 <= i < |s| => s[i] as int % 128)
  }

  predicate IsControl(ch: octet) {
    ch < 32 && ch != 9 && ch != 10 && ch != 13
  }

  /** `OCTET_STRING__xer_escape_table`; empty where it has no entry. */
  function TableEntry(ch: octet): text {
    if IsControl(ch) then [LESS] + Ascii(NAMES[ch]) + [SLASH, GREATER]
    else if ch < 32 then [ch]
    else if ch == AMPERSAND then Ascii("&amp;")
    else if ch == LESS then Ascii("&lt;")
    else if ch == GREATER then Ascii("&gt;")
    else []
  }

  function EscapeOctet(ch: octet): text {
    if TableEntry(ch) != [] then TableEntry(ch) else [ch]
  }

  /** What `OCTET_STRING_encode_xer_utf8` prints. */
  function Escape(s: seq<octet>): text {
    if s == [] then [] else EscapeOctet(s[0]) + Escape(s[1..])
  }

  /** `OS__check_escaped_control_char` from entry i on; None is -1. */
  function ControlFrom(tag: text, i: nat): (ch: Option<octet>)
    requires i <= 32
    ensures ch.Some? ==> i <= ch.value < 32 && TableEntry(ch.value) == tag
    ensures ch.None? ==> forall k: octet :: i <= k < 32 ==> TableEntry(k) != tag
    decreases 32 - i
  {
    if i == 32 then None
    else if TableEntry(i) == tag then Some(i)
    else ControlFrom(tag, i + 1)
  }

  method CheckEscapedControlChar(tag: text) returns (ch: Option<octet>)
    ensures ch == ControlFrom(tag, 0)
  {
    var i := 0;
    while i < 32
      invariant 0 <= i <= 32 && ControlFrom(tag, 0) == ControlFrom(tag, i)
    {
      if |TableEntry(i)| == |tag| && TableEntry(i) == tag { return Some(i); }
      i := i + 1;
    }
    ch := None;
  }

  /** The names as numbers, their octets in order. */
  const SPELLED: seq<nat> := [
    0x6e756c, 0x736f68, 0x737478, 0x657478, 0x656f74, 0x656e71, 0x61636b, 0x62656c,
    0x6273, 0, 0, 0x7674, 0x6666, 0, 0x736f, 0x7369,
    0x646c65, 0x646331, 0x646332, 0x646333, 0x646334, 0x6e616b, 0x73796e, 0x657462,
    0x63616e, 0x656d, 0x737562, 0x657363, 0x697334, 0x697333, 0x697332, 0x697331]

  /** The whole table: tags of these names, white space as it stands, three references, nothing else. */
  lemma EntryIs(ch: octet)
    ensures ch in [9, 10, 13] ==> TableEntry(ch) == [ch]
    ensures ch < 32 && ch !in [9, 10, 13] ==>
              exists name: text ::
                && TableEntry(ch) == [0x3c] + name + [0x2f, 0x3e]
                && Unsigned(name) == SPELLED[ch] && name != [] && name[0] != 0
    ensures ch == 0x26 ==> TableEntry(ch) == [0x26, 0x61, 0x6d, 0x70, 0x3b]
    ensures ch == 0x3c ==> TableEntry(ch) == [0x26, 0x6c, 0x74, 0x3b]
    ensures ch == 0x3e ==> TableEntry(ch) == [0x26, 0x67, 0x74, 0x3b]
    ensures ch >= 32 && ch !in [0x26, 0x3c, 0x3e] ==> TableEntry(ch) == []
  {
    if IsControl(ch) {
      hide Unsigned, Ascii;
      NamesAreLetters(ch);
      CodeOf(NAMES[ch]);
      NameSpelled(ch);
    } else if ch >= 32 {
      assert Ascii("&amp;") == [0x26, 0x61, 0x6d, 0x70, 0x3b];
      assert Ascii("&lt;") == [0x26, 0x6c, 0x74, 0x3b];
      assert Ascii("&gt;") == [0x26, 0x67, 0x74, 0x3b];
    }
  }

  lemma CodeOf(s: string)
    requires 2 <= |s| <= 3 && forall k :: 0 <= k < |s| ==> '1' <= s[k] <= 'z'
    ensures Ascii(s)[0] != 0
    ensures Unsigned(Ascii(s))
         == if |s| == 2 then s[0] as int * 256 + s[1] as int
            else s[0] as int * 65536 + s[1] as int * 256 + s[2] as int
  {
    var t := Ascii(s);
    assert t[..2][..1] == [s[0] as int] && [s[0] as int][..0] == [];
    assert Unsigned([s[0] as int]) == s[0] as int;
    assert Unsigned(t[..2]) == s[0] as int * 256 + s[1] as int;
    if |s| == 2 { assert t[..2] == t; }
  }

  lemma NameSpelled(i: nat)
    requires i < 32 && IsControl(i)
    ensures var n := NAMES[i];
            |n| >= 2 && SPELLED[i]
            == if |n| == 2 then n[0] as int * 256 + n[1] as int
               else n[0] as int * 65536 + n[1] as int * 256 + n[2] as int
  {
  }

  lemma NamesDiffer(i: nat, j: nat)
    requires i < j < 32 && IsControl(i) && IsControl(j)
    ensures NAMES[i] != NAMES[j]
  {
  }

  lemma NamesAreLetters(i: nat)
    requires i < 32 && IsControl(i)
    ensures 2 <= |NAMES[i]| <= 3
    ensures forall k :: 0 <= k < |NAMES[i]| ==> 'a' <= NAMES[i][k] <= 'z' || '1' <= NAMES[i][k] <= '9'
    ensures 'a' <= NAMES[i][0] <= 'z'
  {
  }

  lemma AsciiInjective(a: string, b: string)
    requires forall k :: 0 <= k < |a| ==> a[k] <= 'z'
    requires forall k :: 0 <= k < |b| ==> b[k] <= 'z'
    requires Ascii(a) == Ascii(b)
    ensures a == b
  {
    forall k | 0 <= k < |a| ensures a[k] == b[k] {
      assert Ascii(a)[k] == Ascii(b)[k];
    }
  }

  lemma EntryName(i: octet)
    requires IsControl(i)
    ensures TableEntry(i) == [LESS] + Ascii(NAMES[i]) + [SLASH, GREATER]
    ensures TableEntry(i)[1..|TableEntry(i)| - 2] == Ascii(NAMES[i])
  {
  }

  /** Entries of different control characters differ. */
  lemma EntriesDiffer(i: octet, j: octet)
    requires i < j < 32 && IsControl(j)
    ensures TableEntry(i) != TableEntry(j)
  {
    hide TableEntry, Ascii;
    EntryName(j);
    if IsControl(i) {
      EntryName(i);
      NamesDiffer(i, j);
      NamesAreLetters(i);
      NamesAreLetters(j);
      if TableEntry(i) == TableEntry(j) {
        AsciiInjective(NAMES[i], NAMES[j]);
      }
    } else {
      SpaceEntry(i);
    }
  }

  lemma SpaceEntry(i: octet)
    requires i < 32 && !IsControl(i)
    ensures TableEntry(i) == [i]
  {
  }

  /** The tag written for a control character is recognised as that character. */
  lemma {:induction false} ControlIsFound(ch: octet, i: nat)
    requires IsControl(ch) && i <= ch
    ensures ControlFrom(TableEntry(ch), i) == Some(ch)
    decreases ch - i
  {
    hide TableEntry, NAMES;
    if i < ch {
      EntriesDiffer(i, ch);
      ControlIsFound(ch, i + 1);
    }
  }

  /** `OCTET_STRING_encode_xer_utf8`: runs of plain octets handed over between the escapes. */
  method EncodeXerUtf8(buf: seq<octet>) returns (out: text, encoded: nat)
    ensures out == Escape(buf) && encoded == |out|
  {
    hide TableEntry, Escape;
    var ss, i := 0, 0;
    out, encoded := [], 0;
    assert buf[0..] == buf && [] + ([] + Escape(buf)) == Escape(buf);
    while i < |buf|
      invariant 0 <= ss <= i <= |buf|
      invariant Escape(buf) == out + (buf[ss..i] + Escape(buf[i..]))
      invariant encoded == |out|
    {
      var ch := buf[i];
      EscapeStep(buf, out, ss, i);
      if ch < 0x3f && |TableEntry(ch)| > 0 {
        if i > ss { out := out + buf[ss..i]; } else { assert out + buf[ss..i] == out; }
        out := out + TableEntry(ch);
        encoded := encoded + (i - ss) + |TableEntry(ch)|;
        ss := i + 1;
      }
      i := i + 1;
    }
    encoded := encoded + (i - ss);
    EscapeEnd(buf, ss, out);
    if i > ss { out := out + buf[ss..i]; }
  }

  lemma EscapeStep(buf: seq<octet>, out: text, ss: nat, i: nat)
    requires ss <= i < |buf|
    requires Escape(buf) == out + (buf[ss..i] + Escape(buf[i..]))
    ensures if buf[i] < 0x3f && |TableEntry(buf[i])| > 0
            then Escape(buf) == (out + buf[ss..i] + TableEntry(buf[i])) + (buf[i + 1..i + 1] + Escape(buf[i + 1..]))
            else Escape(buf) == out + (buf[ss..i + 1] + Escape(buf[i + 1..]))
  {
    hide TableEntry, Escape;
    EscapeCons(buf, i);
    EntryIsSmall(buf[i]);
    var escaped, rest := EscapeOctet(buf[i]), Escape(buf[i + 1..]);
    Reassociate(out, buf[ss..i], escaped, rest);
    assert buf[i + 1..i + 1] == [];
    assert [] + rest == rest;
    assert buf[ss..i + 1] == buf[ss..i] + [buf[i]];
  }

  lemma EntryIsSmall(ch: octet)
    ensures ch >= 0x3f ==> TableEntry(ch) == []
  {
  }

  lemma EscapeCons(buf: seq<octet>, i: nat)
    requires i < |buf|
    ensures Escape(buf[i..]) == EscapeOctet(buf[i]) + Escape(buf[i + 1..])
  {
    hide EscapeOctet;
    assert buf[i..][0] == buf[i] && buf[i..][1..] == buf[i + 1..];
  }

  lemma EscapeEnd(buf: seq<octet>, ss: nat, out: text)
    requires ss <= |buf| && Escape(buf) == out + (buf[ss..|buf|] + Escape(buf[|buf|..]))
    ensures Escape(buf) == out + buf[ss..|buf|]
    ensures ss == |buf| ==> Escape(buf) == out
  {
    hide EscapeOctet;
    assert buf[|buf|..] == [];
    EscapeNothing();
    assert buf[ss..|buf|] + [] == buf[ss..|buf|];
  }

  lemma EscapeNothing()
    ensures Escape([]) == []
  {
  }
}
