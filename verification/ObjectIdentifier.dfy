/**
  OBJECT IDENTIFIER contents: each arc in base 128, the first two arcs sharing
  one value (section 8.19 of ITU-T X.690).
 */
module ObjectIdentifier {
  import opened Octets

  /** `asn_oid_arc_t` is a 32-bit unsigned integer. */
  const ARC_MAX: int := 0xffff_ffff

  type arc = v: int | 0 <= v <= ARC_MAX

  // ----- one arc ---------------------------------------------------------------

  /** The continuation octets of the higher base-128 digits. */
  function High(v: nat): (s: seq<octet>)
    ensures forall i :: 0 <= i < |s| ==> s[i] >= 0x80
    ensures s != [] ==> s[0] != 0x80
  {
    if v == 0 then [] else High(v / 128) + [0x80 + v % 128]
  }

  /** The encoding of one arc. */
  function Arc(v: nat): (s: seq<octet>)
    ensures s != []
  {
    High(v / 128) + [v % 128]
  }

  /** The base-128 value of a group, whatever its continuation bits. */
  function Val128(s: seq<octet>): nat {
    if s == [] then 0 else Val128(s[..|s| - 1]) * 128 + s[|s| - 1] % 128
  }

  /** Length of the first group that ends with a clear continuation bit. */
  function GroupLength(s: seq<octet>): (r: Option<nat>)
    ensures r.Some? ==>
              && 0 < r.value <= |s| && s[r.value - 1] < 0x80
              && forall i :: 0 <= i < r.value - 1 ==> s[i] >= 0x80
    ensures r == None ==> forall i :: 0 <= i < |s| ==> s[i] >= 0x80
  {
    if s == [] then None
    else if s[0] < 0x80 then Some(1)
    else
      var rest := GroupLength(s[1..]);
      assert forall i :: 0 < i < |s| ==> s[i] == s[1..][i - 1];
      if rest == None then None else Some(rest.value + 1)
  }

  /** The three outcomes of reading an arc: 0, -1, or the octet count. */
  datatype ArcRead = NoMore | Broken | Got(value: arc, length: nat)

  /** Exactly the terminated groups worth at most 2^32-1 are arcs. */
  function FirstArc(s: seq<octet>): (r: ArcRead)
    ensures r.Got? ==> 0 < r.length <= |s|
    ensures r.NoMore? <==> s == []
  {
    if s == [] then NoMore
    else if GroupLength(s) == None then Broken
    else
      var n := GroupLength(s).value;
      if Val128(s[..n]) <= ARC_MAX then Got(Val128(s[..n]), n) else Broken
  }

  lemma GroupLengthIs(s: seq<octet>, n: nat)
    requires 0 < n <= |s| && s[n - 1] < 0x80
    requires forall i :: 0 <= i < n - 1 ==> s[i] >= 0x80
    ensures GroupLength(s) == Some(n)
  {
    if GroupLength(s).Some? {
      assert s[GroupLength(s).value - 1] < 0x80;
    }
  }

  lemma Val128Snoc(s: seq<octet>, o: octet)
    ensures Val128(s + [o]) == Val128(s) * 128 + o % 128
  {
    assert (s + [o])[..|s|] == s;
  }

  /** Each further digit multiplies the value by at least 128. */
  lemma {:induction false} Val128Grows(s: seq<octet>, j: nat)
    requires j < |s|
    ensures Val128(s) >= Val128(s[..j]) * 128
  {
    var n := |s| - 1;
    if j < n {
      Val128Grows(s[..n], j);
      assert s[..n][..j] == s[..j];
    }
  }

  lemma HighUnfolds(v: nat)
    ensures High(v) == if v == 0 then [] else High(v / 128) + [0x80 + v % 128]
  {
  }

  lemma {:induction false} Val128OfHigh(v: nat)
    ensures Val128(High(v)) == v
  {
    hide High, Val128;
    HighUnfolds(v);
    NothingRead();
    if v != 0 {
      Val128OfHigh(v / 128);
      Val128Snoc(High(v / 128), 0x80 + v % 128);
    }
  }

  lemma ArcValue(v: nat)
    ensures Val128(Arc(v)) == v
  {
    hide High;
    var high, o := High(v / 128), v % 128;
    Val128OfHigh(v / 128);
    Val128Snoc(high, o);
    assert Arc(v) == high + [o];
  }

  /** Only the last octet of an arc has its continuation bit clear. */
  lemma ArcShape(v: nat)
    ensures var s := Arc(v);
            s[|s| - 1] < 0x80 && forall i :: 0 <= i < |s| - 1 ==> s[i] >= 0x80
  {
    hide High;
  }

  /** An encoded arc in front of anything is read back with its length. */
  lemma FirstArcOfArc(v: arc, rest: seq<octet>)
    ensures FirstArc(Arc(v) + rest) == Got(v, |Arc(v)|)
  {
    ArcValue(v);
    ArcShape(v);
    hide High, Arc, Val128, GroupLength;
    var s, n := Arc(v) + rest, |Arc(v)|;
    assert s[..n] == Arc(v);
    assert s[n - 1] == Arc(v)[n - 1];
    assert forall i :: 0 <= i < n - 1 ==> s[i] == Arc(v)[i];
    GroupLengthIs(s, n);
  }

  lemma HighIsShort(v: arc)
    ensures |High(v)| <= 5
  {
    HighLength(v / 128, 4, 0x1000_0000);
  }

  lemma {:induction false} HighLength(v: nat, k: nat, p: nat)
    requires v < p
    requires k <= 4 && p == (if k == 0 then 1 else if k == 1 then 128 else if k == 2 then 16384
                             else if k == 3 then 0x20_0000 else 0x1000_0000)
    ensures |High(v)| <= k
  {
    if v != 0 {
      HighLength(v / 128, k - 1, p / 128);
    }
  }

  /** Every arc is minimal and fits the five-octet scratch buffer. */
  lemma ArcIsShort(v: arc)
    ensures 1 <= |Arc(v)| <= 5 && Arc(v)[0] != 0x80
  {
    HighLength(v / 128, 4, 0x1000_0000);
  }

  /** A terminated group that does not start with 0x80 is the encoding of its value. */
  lemma {:induction false} HighIsUnique(s: seq<octet>)
    requires forall i :: 0 <= i < |s| ==> s[i] >= 0x80
    requires s != [] ==> s[0] != 0x80
    ensures s == High(Val128(s))
  {
    hide High, Val128;
    HighUnfolds(0);
    NothingRead();
    if s != [] {
      var n := |s| - 1;
      var front, o := s[..n], s[n];
      HighIsUnique(front);
      assert s == front + [o];
      Val128Snoc(front, o);
      var v := Val128(front);
      assert Val128(s) == v * 128 + (o - 0x80);
      HighUnfolds(Val128(s));
      assert Val128(s) / 128 == v && Val128(s) % 128 == o - 0x80;
      assert v == 0 ==> front == [];
    }
  }

  lemma LastDigit(front: seq<octet>, o: octet)
    requires o < 0x80
    ensures Val128(front + [o]) / 128 == Val128(front) && Val128(front + [o]) % 128 == o
  {
    Val128Snoc(front, o);
  }

  lemma ArcOf(v: nat, front: nat, o: octet)
    requires v / 128 == front && v % 128 == o
    ensures Arc(v) == High(front) + [o]
  {
  }

  lemma MinimalGroupIsArc(s: seq<octet>, v: nat)
    requires GroupLength(s) == Some(|s|) && s[0] != 0x80
    requires v == Val128(s)
    ensures s == Arc(v)
  {
    hide GroupLength, Val128, High;
    var front, o := s[..|s| - 1], s[|s| - 1];
    HighIsUnique(front);
    LastDigit(front, o);
    assert s == front + [o];
    ArcOf(v, v / 128, o);
  }

  /** `OBJECT_IDENTIFIER_get_single_arc`: 32-bit accumulation, guarded before each further shift. */
  method GetSingleArc(arcbuf: seq<octet>) returns (r: ArcRead)
    ensures r == FirstArc(arcbuf)
  {
    hide GroupLength, Val128;
    if arcbuf == [] { return NoMore; }
    var upperLimit := ARC_MAX / 128;
    var accum, b := 0, 0;
    assert arcbuf[..0] == [];
    NothingRead();
    while b < |arcbuf|
      invariant 0 <= b <= |arcbuf|
      invariant accum == Val128(arcbuf[..b]) && 0 <= accum <= upperLimit
      invariant forall i :: 0 <= i < b ==> arcbuf[i] >= 0x80
    {
      assert arcbuf[..b + 1] == arcbuf[..b] + [arcbuf[b]];
      Val128Snoc(arcbuf[..b], arcbuf[b]);
      accum := (accum * 128) % (ARC_MAX + 1) + arcbuf[b] % 128;
      if arcbuf[b] < 0x80 {
        GroupLengthIs(arcbuf, b + 1);
        return if accum <= ARC_MAX then Got(accum, b + 1) else Broken;
      } else if accum > upperLimit {
        TooLarge(arcbuf, b + 1);
        return Broken;
      }
      b := b + 1;
    }
    r := Broken;
  }

  lemma NothingRead()
    ensures Val128([]) == 0
  {
  }

  /** A prefix over the limit that goes on can only belong to a group over 2^32-1. */
  lemma TooLarge(s: seq<octet>, n: nat)
    requires 0 < n <= |s| && forall i :: 0 <= i < n ==> s[i] >= 0x80
    requires Val128(s[..n]) > ARC_MAX / 128
    ensures FirstArc(s) == Broken
  {
    hide GroupLength, Val128;
    if GroupLength(s).Some? {
      var m := GroupLength(s).value;
      assert s[..m][..n] == s[..n];
      Val128Grows(s[..m], n);
    }
  }

  /** The digit loop of `OBJECT_IDENTIFIER_set_single_arc`, from the end of the scratch buffer. */
  method FillScratch(value: arc) returns (scratch: array<octet>, b: nat)
    ensures scratch.Length == 5 && b < 5 && scratch[b..] == Arc(value) && fresh(scratch)
  {
    hide High;
    scratch := new octet[5](_ => 0);
    HighIsShort(value);
    b := 4;
    var mask, v: nat := 0, value;
    while true
      invariant 0 <= b <= 4
      invariant mask == (if b == 4 then 0 else 0x80)
      invariant b == 4 ==> v == value
      invariant b < 4 ==> v > 0 && High(v) + scratch[b + 1..] == Arc(value)
      invariant |High(v)| <= b + 1
      decreases b
    {
      ghost var tail := scratch[b + 1..];
      scratch[b] := mask + v % 128;
      assert scratch[b..] == [mask + v % 128] + tail;
      HighUnfolds(v);
      HighUnfolds(v / 128);
      v := v / 128;
      if v == 0 { break; }
      b, mask := b - 1, 0x80;
    }
  }

  /** `OBJECT_IDENTIFIER_set_single_arc` at a place in the buffer; -1 when there is no room. */
  method SetSingleArc(arcbuf: array<octet>, at: nat, room: nat, value: arc) returns (n: int)
    requires at + room <= arcbuf.Length
    modifies arcbuf
    ensures n == if |Arc(value)| <= room then |Arc(value)| else -1
    ensures n >= 0 ==> arcbuf[..at + n] == old(arcbuf[..at]) + Arc(value)
    ensures n < 0 ==> arcbuf[..] == old(arcbuf[..])
  {
    hide Arc;
    var scratch, b := FillScratch(value);
    var resultLen := 5 - b;
    if resultLen > room { return -1; }
    forall i | 0 <= i < resultLen {
      arcbuf[at + i] := scratch[b + i];
    }
    assert arcbuf[at..at + resultLen] == scratch[b..];
    assert arcbuf[..at + resultLen] == arcbuf[..at] + arcbuf[at..at + resultLen];
    n := resultLen;
  }

  // ----- whole identifiers ---------------------------------------------------------

  /** The first-two-arc rule of section 8.19.4, and room for the joint value in 32 bits. */
  predicate ValidArcs(arcs: seq<arc>) {
    && |arcs| >= 2
    && arcs[0] <= 2
    && (arcs[0] <= 1 ==> arcs[1] < 40)
    && (arcs[0] == 2 ==> arcs[1] <= ARC_MAX - 80)
  }

  function Arcs(arcs: seq<arc>): seq<octet> {
    if arcs == [] then [] else Arc(arcs[0]) + Arcs(arcs[1..])
  }

  /** The value the first two arcs share. */
  function Joint(arc0: int, arc1: int): int {
    arc0 * 40 + arc1
  }

  /** The contents octets of an identifier. */
  function Encode(arcs: seq<arc>): seq<octet>
    requires |arcs| >= 2
  {
    Arc(Joint(arcs[0], arcs[1])) + Arcs(arcs[2..])
  }

  /** The arcs that follow, up to the end of the contents. */
  function DecodeRest(s: seq<octet>): Option<seq<arc>> {
    match FirstArc(s)
    case NoMore => Some([])
    case Broken => None
    case Got(v, n) =>
      var rest :- DecodeRest(s[n..]);
      Some([v] + rest)
  }

  /** The two arcs folded into the first value. */
  function FirstTwo(value: arc): seq<arc> {
    if value >= 80 then [2, value - 80]
    else if value >= 40 then [1, value - 40]
    else [0, value]
  }

  function Decode(s: seq<octet>): Option<seq<arc>> {
    match FirstArc(s)
    case Got(v, n) =>
      var rest :- DecodeRest(s[n..]);
      Some(FirstTwo(v) + rest)
    case _ => None
  }

  lemma NothingLeft()
    ensures FirstArc([]) == NoMore
  {
  }

  lemma {:induction false} DecodeRestOfArcs(arcs: seq<arc>)
    ensures DecodeRest(Arcs(arcs)) == Some(arcs)
  {
    hide FirstArc, Arc;
    if arcs == [] {
      NothingLeft();
    } else {
      var rest := Arcs(arcs[1..]);
      FirstArcOfArc(arcs[0], rest);
      assert Arcs(arcs) == Arc(arcs[0]) + rest;
      assert (Arc(arcs[0]) + rest)[|Arc(arcs[0])|..] == rest;
      DecodeRestOfArcs(arcs[1..]);
      assert arcs == [arcs[0]] + arcs[1..];
    }
  }

  /** Any arc list that meets the first-two-arc rule is recovered from its encoding. */
  lemma RoundTrip(arcs: seq<arc>)
    requires ValidArcs(arcs)
    ensures Decode(Encode(arcs)) == Some(arcs)
  {
    hide FirstArc, Arc, Arcs, DecodeRest;
    var first := Joint(arcs[0], arcs[1]);
    var rest := Arcs(arcs[2..]);
    FirstArcOfArc(first, rest);
    assert (Arc(first) + rest)[|Arc(first)|..] == rest;
    DecodeRestOfArcs(arcs[2..]);
    assert arcs == FirstTwo(first) + arcs[2..];
  }

  /** Different valid identifiers have different contents. */
  lemma EncodeInjective(a: seq<arc>, b: seq<arc>)
    requires ValidArcs(a) && ValidArcs(b) && Encode(a) == Encode(b)
    ensures a == b
  {
    RoundTrip(a);
    RoundTrip(b);
  }

  /** Whatever decodes is a valid identifier, so it can be encoded again. */
  lemma DecodedIsValid(s: seq<octet>)
    ensures Decode(s).Some? ==> ValidArcs(Decode(s).value)
  {
  }

  // ----- the structure ---------------------------------------------------------------

  /** `OBJECT_IDENTIFIER_t` */
  class ObjectId {
    var buf: array?<octet>
    var size: nat

    predicate Valid()
      reads this
    {
      buf != null ==> size <= buf.Length
    }

    function Contents(): (s: seq<octet>)
      requires Valid() && buf != null
      reads this, buf
    {
      buf[..size]
    }

    constructor ()
      ensures Valid() && buf == null && size == 0
    {
      buf, size := null, 0;
    }
  }

  lemma {:induction false} ArcsFit(arcs: seq<arc>)
    ensures |Arcs(arcs)| <= 5 * |arcs|
  {
    if arcs != [] {
      ArcIsShort(arcs[0]);
      ArcsFit(arcs[1..]);
    }
  }

  lemma ArcsUnfolds(arcs: seq<arc>, i: nat)
    requires i <= |arcs|
    ensures Arcs(arcs[i..]) == if i == |arcs| then [] else Arc(arcs[i]) + Arcs(arcs[i + 1..])
  {
    if i < |arcs| {
      assert arcs[i..][1..] == arcs[i + 1..];
    }
  }

  /** `OBJECT_IDENTIFIER_set_arcs`; the estimate of five octets an arc is never exceeded. */
  method SetArcs(st: ObjectId, arcs: seq<arc>) returns (ok: bool)
    requires st.Valid()
    modifies st
    ensures st.Valid()
    ensures ok == ValidArcs(arcs)
    ensures if ok then
              st.buf != null && st.size < st.buf.Length && st.buf[st.size] == 0 && st.Contents() == Encode(arcs)
            else
              st.buf == old(st.buf) && st.size == old(st.size)
  {
    hide Arc, Arcs, Encode;
    if |arcs| < 2 { return false; }
    var arc0, arc1 := arcs[0], arcs[1];
    if arc0 <= 1 {
      if arc1 >= 40 { return false; }
    } else if arc0 == 2 {
      if arc1 > ARC_MAX - 80 { return false; }
    } else {
      return false;
    }
    var size := 5 * |arcs|;
    var buf := new octet[size + 1](_ => 0);
    ghost var all := Encode(arcs);
    ArcIsShort(Joint(arc0, arc1));
    ArcsFit(arcs[2..]);
    var bp := SetSingleArc(buf, 0, size, Joint(arc0, arc1));
    if bp <= 0 { return false; }
    size := size - bp;
    ghost var done := Arc(Joint(arc0, arc1));
    assert buf[..0] == [];
    EncodeIs(arcs);
    var i := 2;
    while i < |arcs|
      invariant 2 <= i <= |arcs| && 0 <= bp && 0 <= size
      invariant bp + size == 5 * |arcs| == buf.Length - 1
      invariant fresh(buf) && buf[..bp] == done
      invariant done + Arcs(arcs[i..]) == all
      invariant size >= |Arcs(arcs[i..])|
    {
      ArcsUnfolds(arcs, i);
      ArcIsShort(arcs[i]);
      var wrote := SetSingleArc(buf, bp, size, arcs[i]);
      if wrote <= 0 { return false; }
      Associative(done, Arc(arcs[i]), Arcs(arcs[i + 1..]));
      done := done + Arc(arcs[i]);
      bp, size := bp + wrote, size - wrote;
      i := i + 1;
    }
    ArcsUnfolds(arcs, i);
    assert done == all;
    buf[bp] := 0;
    assert buf[..bp] == all;
    st.size := bp;
    st.buf := buf;
    ok := true;
  }

  lemma EncodeIs(arcs: seq<arc>)
    requires ValidArcs(arcs)
    ensures Encode(arcs) == Arc(Joint(arcs[0], arcs[1])) + Arcs(arcs[2..])
  {
  }

  /** `OBJECT_IDENTIFIER_get_arcs` into as many slots as the array has; -1 for broken contents. */
  method GetArcs(st: ObjectId, arcs: array<arc>) returns (num: int)
    requires st.Valid()
    modifies arcs
    ensures st.buf == null ==> num == -1
    ensures st.buf != null ==>
              match Decode(st.Contents())
              case None => num == -1
              case Some(all) =>
                && num == |all|
                && forall i :: 0 <= i < |all| && i < arcs.Length ==> arcs[i] == all[i]
  {
    hide FirstArc;
    if st.buf == null { return -1; }
    var contents := st.buf[..st.size];
    var rd := GetSingleArc(contents);
    if !rd.Got? { return -1; }
    var two := FirstTwo(rd.value);
    if arcs.Length >= 2 { arcs[1] := two[1]; }
    if arcs.Length >= 1 { arcs[0] := two[0]; }
    var numArcs, off := 2, rd.length;
    ghost var sofar := two;
    while true
      invariant 0 <= off <= |contents| && numArcs == |sofar|
      invariant forall i :: 0 <= i < |sofar| && i < arcs.Length ==> arcs[i] == sofar[i]
      invariant match DecodeRest(contents[off..])
                case None => Decode(contents) == None
                case Some(rest) => Decode(contents) == Some(sofar + rest)
      decreases |contents| - off
    {
      rd := GetSingleArc(contents[off..]);
      match rd {
        case Broken => return -1;
        case NoMore => break;
        case Got(v, n) =>
          assert contents[off..][n..] == contents[off + n..];
          GrowSofar(contents, off, sofar, v, n);
          off := off + n;
          if numArcs < arcs.Length { arcs[numArcs] := v; }
          sofar := sofar + [v];
          numArcs := numArcs + 1;
      }
    }
    assert sofar + [] == sofar;
    num := numArcs;
  }

  lemma GrowSofar(contents: seq<octet>, off: nat, sofar: seq<arc>, v: arc, n: nat)
    requires off <= |contents| && FirstArc(contents[off..]) == Got(v, n)
    ensures off + n <= |contents|
    ensures var rest, all := DecodeRest(contents[off + n..]), DecodeRest(contents[off..]);
            if rest == None then all == None
            else all.Some? && sofar + all.value == (sofar + [v]) + rest.value
  {
    assert contents[off..][n..] == contents[off + n..];
  }
}
