/**
  What goes over the wire in aligned PER, told bit by bit and without the functions
  that write it: which values `INTEGER_encode_aper` refuses, which go out past the
  extension root, and the one form each of the others takes (sections 11.5, 11.9
  and 13.2 of ITU-T X.691).
 */
module AperForms {
  import opened Octets
  import opened Integer
  import opened BitStream
  import opened PerFields
  import opened IntegerAper

  // ----- the value and its bounds -----------------------------------------------------

  function ValueOf(contents: seq<octet>, unsigned: bool): int {
    if unsigned then Unsigned(contents) else Signed(contents)
  }

  /** The value fits the C type that the field is converted to. */
  predicate Held(contents: seq<octet>, unsigned: bool) {
    if unsigned then Unsigned(contents) <= 0xffff_ffff_ffff_ffff
    else -0x8000_0000_0000_0000 <= Signed(contents) <= 0x7fff_ffff_ffff_ffff
  }

  /** A bound as it is compared: in an unsigned field a negative one stands 2^64 higher. */
  function Bound(b: int, unsigned: bool): int {
    if unsigned && b < 0 then b + 0x1_0000_0000_0000_0000 else b
  }

  predicate Inside(c: Constraint, v: int, unsigned: bool) {
    && (c.semi || c.rangeBits >= 0 ==> Bound(c.lb, unsigned) <= v)
    && (!c.semi && c.rangeBits >= 0 ==> v <= Bound(c.ub, unsigned))
  }

  /** The encoder succeeds. */
  predicate Accepted(contents: seq<octet>, ct: Option<Constraint>, unsigned: bool) {
    && contents != []
    && (ct.Some? ==>
          && Held(contents, unsigned)
          && if Inside(ct.value, ValueOf(contents, unsigned), unsigned)
             then ct.value.rangeBits >= 0 || ct.value.lb == 0
             else ct.value.extensible)
  }

  // ----- the forms --------------------------------------------------------------------

  /** Octets with their length in front; from 16384 octets on, up to four times as many at a time. */
  function Fragments(s: seq<octet>): seq<octet> {
    if s == [] then []
    else
      var k := FragmentSize(|s|);
      LengthOctets(|s|) + (s[..k] + Fragments(s[k..]))
  }

  /** The field is the number n in exactly w bits, on an octet boundary of the stream, zeros before it. */
  predicate AlignedNumber(field: seq<bit>, w: nat, n: nat, off: nat) {
    && w <= |field| < w + 8
    && (off + |field| - w) % 8 == 0
    && (forall i :: 0 <= i < |field| - w ==> field[i] == 0)
    && FromBits(field[|field| - w..]) == n
  }

  /** The field is the number n in as few octets as hold it, their count less one in w bits before them. */
  ghost predicate CountedNumber(field: seq<bit>, w: nat, n: nat, off: nat) {
    exists octets: seq<octet> :: MinimalOctets(octets, n) && field == Counted(octets, w, off)
  }

  predicate MinimalOctets(octets: seq<octet>, n: nat) {
    octets != [] && Unsigned(octets) == n && (|octets| > 1 ==> octets[0] != 0)
  }

  function Counted(octets: seq<octet>, w: nat, off: nat): seq<bit>
    requires octets != []
  {
    ToBits(|octets| - 1, w) + (Padding(off + w) + OctetBits(octets))
  }

  ghost predicate RangeForm(field: seq<bit>, rangeBits: nat, n: nat, off: nat) {
    if rangeBits < 8 then |field| == rangeBits && FromBits(field) == n
    else if rangeBits == 8 then AlignedNumber(field, 8, n, off)
    else if rangeBits <= 16 then AlignedNumber(field, 16, n, off)
    else if rangeBits <= 32 then CountedNumber(field, 2, n, off)
    else CountedNumber(field, 3, n, off)
  }

  function OpenForm(contents: seq<octet>, off: nat): seq<bit> {
    Padding(off) + OctetBits(Fragments(contents))
  }

  /** The bits are those of this value: the extension bit if there is one, and the form its constraint asks for. */
  ghost predicate Written(enc: seq<bit>, contents: seq<octet>, ct: Option<Constraint>, unsigned: bool, off: nat) {
    if ct == None then enc == OpenForm(contents, off)
    else
      var c, v := ct.value, ValueOf(contents, unsigned);
      if !Inside(c, v, unsigned) then enc == [1] + OpenForm(contents, off + 1)
      else
        var ext := if c.extensible then [0] else [];
        if c.rangeBits < 0 then enc == ext + OpenForm(contents, off + |ext|)
        else
          && ext <= enc
          && v >= Bound(c.lb, unsigned)
          && RangeForm(enc[|ext|..], c.rangeBits, v - Bound(c.lb, unsigned), off + |ext|)
  }

  // ----- a number in a range -----------------------------------------------------------

  lemma PlainIff(field: seq<bit>, n: nat, w: nat)
    requires n < Pow2(w)
    ensures field == ToBits(n, w) <==> |field| == w && FromBits(field) == n
  {
    FromToBits(n, w);
    ToFromBits(field);
  }

  lemma AlignedIff(field: seq<bit>, n: nat, w: nat, off: nat)
    requires n < Pow2(w)
    ensures field == Padding(off) + ToBits(n, w) <==> AlignedNumber(field, w, n, off)
  {
    hide FromBits, ToBits, Pow2;
    var p := |Padding(off)|;
    if field == Padding(off) + ToBits(n, w) {
      assert field[p..] == ToBits(n, w);
      PlainIff(field[p..], n, w);
    }
    if AlignedNumber(field, w, n, off) {
      var q := |field| - w;
      SameResidue(off, p, q);
      PlainIff(field[q..], n, w);
      assert field[..q] == Padding(off);
      assert field == field[..q] + field[q..];
    }
  }

  lemma SameResidue(off: nat, p: nat, q: nat)
    requires p < 8 && q < 8 && (off + p) % 8 == 0 && (off + q) % 8 == 0
    ensures p == q
  {
  }

  /** The octets written are the fewest that hold the number. */
  lemma TopOctetsMinimal(n: nat, rangeBits: nat)
    requires 16 < rangeBits <= 64 && n < Pow2(rangeBits)
    ensures MinimalOctets(OctetsOf(n, TopOctet(n, 7) + 1), n)
  {
    hide Pow2, TopOctet, OctetsOf, Unsigned, ShiftOctets, Pow256;
    var j := TopOctet(n, 7);
    TopOctetsHold(rangeBits, n);
    UnsignedOctetsOf(n, j + 1);
    OctetsOfAt(n, j + 1, 0);
    ShiftOctetsIsZero(n, j + 1);
    ShiftOctetsNext(n, j);
  }

  lemma MinimalOctetsUnique(a: seq<octet>, b: seq<octet>, n: nat)
    requires MinimalOctets(a, n) && MinimalOctets(b, n)
    ensures a == b
  {
    hide Unsigned, Pow256;
    if |a| < |b| {
      ShorterIsLess(a, b);
    } else if |b| < |a| {
      ShorterIsLess(b, a);
    }
    UnsignedInjective(a, b);
  }

  lemma ShorterIsLess(a: seq<octet>, b: seq<octet>)
    requires |a| < |b| && b[0] != 0
    ensures Unsigned(a) < Unsigned(b)
  {
    hide Unsigned, Pow256;
    UnsignedBound(a);
    UnsignedCons(b);
    Pow256Monotone(|a|, |b| - 1);
    MulMonotone(1, b[0], Pow256(|b| - 1));
  }

  lemma CountedIff(field: seq<bit>, rangeBits: nat, n: nat, off: nat)
    requires 16 < rangeBits <= 64 && n < Pow2(rangeBits)
    ensures field == RangeField(rangeBits, n, off)
       <==> CountedNumber(field, if rangeBits <= 32 then 2 else 3, n, off)
  {
    hide Pow2, TopOctet, OctetsOf, LengthBits, MinimalOctets, OctetBits, ToBits;
    var w := if rangeBits <= 32 then 2 else 3;
    var octets := OctetsOf(n, TopOctet(n, 7) + 1);
    CountWidth(rangeBits);
    TopOctetsMinimal(n, rangeBits);
    assert RangeField(rangeBits, n, off) == Counted(octets, w, off);
    forall other: seq<octet> | MinimalOctets(other, n)
      ensures other == octets
    {
      MinimalOctetsUnique(other, octets, n);
    }
  }

  /** An offset that fits the range has one form, and that is what is written. */
  lemma RangeFormIs(field: seq<bit>, rangeBits: nat, n: nat, off: nat)
    requires rangeBits <= 64 && n < Pow2(rangeBits)
    ensures field == RangeField(rangeBits, n, off) <==> RangeForm(field, rangeBits, n, off)
  {
    hide Pow2, FromBits, ToBits, AlignedNumber, CountedNumber;
    if rangeBits < 8 {
      PlainIff(field, n, rangeBits);
    } else if rangeBits <= 16 {
      var w := if rangeBits == 8 then 8 else 16;
      Pow2Monotone(rangeBits, w);
      AlignedIff(field, n, w, off);
    } else {
      CountedIff(field, rangeBits, n, off);
    }
  }

  // ----- contents in fragments -----------------------------------------------------------

  /** Contents without range go out as octets, on an octet boundary. */
  lemma {:induction false} FragmentsWritten(s: seq<octet>, off: nat)
    requires s != []
    ensures Unconstrained(s, off) == OpenForm(s, off)
    decreases |s|
  {
    hide Unconstrained, OctetBits, LengthHeader, LengthOctets, FragmentSize, MaySave;
    var k := FragmentSize(|s|);
    var lead := LengthOctets(|s|);
    var next := off + |Padding(off) + LengthHeader(|s|)| + 8 * k;
    var rest := Fragments(s[k..]);
    SizeIs(|s|);
    FirstFragment(s, off);
    HeaderOctets(|s|);
    if s[k..] == [] {
      NothingWritten(next);
    } else {
      assert |s[k..]| == |s| - k;
      FragmentsWritten(s[k..], next);
      OnBoundary(next, OctetBits(rest));
    }
    hide Padding, Fragments;
    FragmentsStep(s);
    OctetBitsConcat(lead, s[..k] + rest);
    OctetBitsConcat(s[..k], rest);
    Associative(Padding(off), OctetBits(lead), OctetBits(s[..k]) + OctetBits(rest));
  }

  lemma FragmentsStep(s: seq<octet>)
    requires s != []
    ensures var k := FragmentSize(|s|); Fragments(s) == LengthOctets(|s|) + (s[..k] + Fragments(s[k..]))
  {
  }

  lemma OnBoundary(off: nat, b: seq<bit>)
    requires off % 8 == 0
    ensures Padding(off) + b == b
  {
  }

  lemma NothingWritten(off: nat)
    ensures Unconstrained([], off) == [] == OctetBits(Fragments([]))
  {
  }

  // ----- the whole encoder ------------------------------------------------------------------

  lemma SameReading(c: Constraint, contents: seq<octet>, unsigned: bool)
    requires FitsImax(c.lb) && FitsImax(c.ub)
    ensures Native(contents, unsigned).Some? <==> Held(contents, unsigned)
    ensures Held(contents, unsigned) ==> Native(contents, unsigned).value == ValueOf(contents, unsigned)
    ensures c.Low(unsigned) == Bound(c.lb, unsigned)
    ensures c.Outside(ValueOf(contents, unsigned), unsigned) <==> !Inside(c, ValueOf(contents, unsigned), unsigned)
  {
    hide Unsigned, Signed;
    UnsignedLow(c.lb);
    UnsignedLow(c.ub);
  }

  /** The encoder fails exactly on what is not accepted. */
  lemma RefusedIff(contents: seq<octet>, ct: Option<Constraint>, unsigned: bool, off: nat)
    requires ct.Some? ==> FitsImax(ct.value.lb) && FitsImax(ct.value.ub)
    ensures Encoding(contents, ct, unsigned, off).Some? <==> Accepted(contents, ct, unsigned)
  {
    hide Unconstrained, RangeField, Unsigned, Signed;
    if ct.Some? {
      SameReading(ct.value, contents, unsigned);
    }
  }

  /** The encoder writes these bits exactly when it accepts the value and they are the value's form. */
  lemma EncodedIff(contents: seq<octet>, ct: Option<Constraint>, unsigned: bool, off: nat, enc: seq<bit>)
    requires ct.Some? ==> ct.value.WellFormed(unsigned)
    ensures Encoding(contents, ct, unsigned, off) == Some(enc)
       <==> Accepted(contents, ct, unsigned) && Written(enc, contents, ct, unsigned, off)
  {
    hide Unconstrained, RangeField, RangeForm, Unsigned, Signed, OpenForm, Accepted, Pow2;
    RefusedIff(contents, ct, unsigned, off);
    if Accepted(contents, ct, unsigned) {
      assert contents != [];
      FragmentsWritten(contents, off);
      FragmentsWritten(contents, off + 1);
      if ct.Some? {
        RootForm(contents, ct.value, unsigned, off, enc);
      }
    }
  }

  lemma RootForm(contents: seq<octet>, c: Constraint, unsigned: bool, off: nat, enc: seq<bit>)
    requires c.WellFormed(unsigned)
    requires Encoding(contents, Some(c), unsigned, off).Some?
    requires contents != [] && Unconstrained(contents, off) == OpenForm(contents, off)
    requires Unconstrained(contents, off + 1) == OpenForm(contents, off + 1)
    ensures Encoding(contents, Some(c), unsigned, off) == Some(enc)
       <==> Written(enc, contents, Some(c), unsigned, off)
  {
    hide Unconstrained, RangeField, RangeForm, Unsigned, Signed, OpenForm, Pow2;
    SameReading(c, contents, unsigned);
    var v := ValueOf(contents, unsigned);
    var ext: seq<bit> := if c.extensible then [0] else [];
    var p := off + |ext|;
    if Inside(c, v, unsigned) && c.rangeBits >= 0 {
      RebaseOffset(c, v, unsigned);
      var n := v - Bound(c.lb, unsigned);
      if ext <= enc {
        RangeFormIs(enc[|ext|..], c.rangeBits, n, p);
        assert enc == ext + enc[|ext|..];
      } else {
        assert enc != ext + RangeField(c.rangeBits, n, p);
      }
      assert (ext + RangeField(c.rangeBits, n, p))[|ext|..] == RangeField(c.rangeBits, n, p);
    }
  }

  // ----- the decoder on streams the encoder does not write --------------------------------

  /** A count of octets, alignment and that many octets are read as their number, needed to hold it or not. */
  lemma CountedRead(rangeBits: nat, octets: seq<octet>, bits: seq<bit>, pos: nat)
    requires 16 < rangeBits <= 64
    requires 1 <= |octets| <= if rangeBits <= 32 then 4 else 8
    requires At(bits, pos, Counted(octets, if rangeBits <= 32 then 2 else 3, pos))
    ensures ReadRange(rangeBits, bits, pos)
         == Some(Read(Unsigned(octets), pos + |Counted(octets, if rangeBits <= 32 then 2 else 3, pos)|))
  {
    hide At, ToBits, OctetBits, Unsigned, Few, Many, Aligned, LengthBits, RangeOctets;
    var w := if rangeBits <= 32 then 2 else 3;
    CountWidth(rangeBits);
    assert |octets| - 1 < Pow2(w) by { assert Pow2(2) == 4 && Pow2(3) == 8; }
    AtSplit(bits, pos, ToBits(|octets| - 1, w), Padding(pos + w) + OctetBits(octets));
    FewAt(bits, pos, |octets| - 1, w);
    AtSplit(bits, pos + w, Padding(pos + w), OctetBits(octets));
    AlignedAt(bits, pos + w);
    ManyAt(bits, pos + w + |Padding(pos + w)|, octets);
  }

  /**
    With a range in force, whatever offset is read: what is stored is canonical, congruent
    modulo 2^64 to the offset plus the low bound, and in the range of the type that stores it.
   */
  lemma OffsetStored(bits: seq<bit>, pos: nat, c: Constraint, unsigned: bool) returns (v: int)
    requires (c.semi || c.constrained || c.extensible) && pos < |bits| && (c.extensible ==> bits[pos] == 0)
    ensures if c.rangeBits < 0 then Decoding(bits, pos, Some(c), unsigned) == None
            else match ReadRange(c.rangeBits, bits, if c.extensible then pos + 1 else pos)
            case None => Decoding(bits, pos, Some(c), unsigned) == None
            case Some(r) =>
              && Decoding(bits, pos, Some(c), unsigned) == Some(Read(Der(v), r.pos))
              && (r.value + c.lb - v) % 0x1_0000_0000_0000_0000 == 0
              && if unsigned && c.rangeBits > 16 then 0 <= v < 0x1_0000_0000_0000_0000
                 else -0x8000_0000_0000_0000 <= v <= 0x7fff_ffff_ffff_ffff
  {
    hide ReadRange, Der;
    v := 0;
    var p := if c.extensible then pos + 1 else pos;
    RootInForce(bits, pos, c);
    if c.rangeBits >= 0 && ReadRange(c.rangeBits, bits, p).Some? {
      var raw := ReadRange(c.rangeBits, bits, p).value.value;
      v := Rebased(c, raw, unsigned);
      WrapAdd(raw, c.lb);
      Congruent(raw + c.lb, v);
    }
  }

  lemma Congruent(a: int, b: int)
    requires ToUmax(a) == ToUmax(b)
    ensures (a - b) % 0x1_0000_0000_0000_0000 == 0
  {
  }

  lemma RootInForce(bits: seq<bit>, pos: nat, c: Constraint)
    requires pos < |bits| && (c.extensible ==> bits[pos] == 0)
    ensures ReadRoot(bits, pos, Some(c)) == Some(Read(Some(c), if c.extensible then pos + 1 else pos))
  {
    var one := bits[pos..pos + 1];
    assert one == [bits[pos]] && one[..0] == [];
    assert FromBits(one) == FromBits(one[..0]) * 2 + bits[pos] == bits[pos];
  }

  /** Past the extension root the constraint no longer counts. */
  lemma PastRoot(bits: seq<bit>, pos: nat, c: Constraint, unsigned: bool)
    requires c.extensible && pos < |bits| && bits[pos] == 1
    ensures Decoding(bits, pos, Some(c), unsigned) == ReadUnconstrained(bits, pos + 1)
  {
    hide ReadUnconstrained, ReadRange;
    var one := bits[pos..pos + 1];
    assert one == [bits[pos]] && one[..0] == [];
    assert FromBits(one) == FromBits(one[..0]) * 2 + bits[pos] == bits[pos];
  }

  /** Fragments of one to four times 16384 octets, and a shorter one, perhaps empty, that closes them. */
  predicate Pieces(p: seq<seq<octet>>) {
    && p != []
    && if |p| == 1 then |p[0]| < 16384 else |p[0]| in {16384, 32768, 49152, 65536} && Pieces(p[1..])
  }

  function Delimited(p: seq<seq<octet>>): seq<octet> {
    if p == [] then [] else LengthOctets(|p[0]|) + (p[0] + Delimited(p[1..]))
  }

  /** However the contents are cut into fragments, and whatever stands in the padding, the decoder gathers them. */
  lemma {:induction false} PiecesRead(p: seq<seq<octet>>, pad: seq<bit>, bits: seq<bit>, pos: nat)
    requires Pieces(p) && |pad| == |Padding(pos)|
    requires At(bits, pos, pad + OctetBits(Delimited(p)))
    ensures ReadUnconstrained(bits, pos) == Some(Read(Join(p), pos + |pad + OctetBits(Delimited(p))|))
    decreases |p|
  {
    hide At, OctetBits, LengthOctets, ReadHeader, Many, Padding, ReadLength;
    var lead, rest := LengthOctets(|p[0]|), Delimited(p[1..]);
    AtSplit(bits, pos, pad, OctetBits(Delimited(p)));
    OctetBitsConcat(lead, p[0] + rest);
    OctetBitsConcat(p[0], rest);
    var start := pos + |pad|;
    AtSplit(bits, start, OctetBits(lead), OctetBits(p[0]) + OctetBits(rest));
    AtSplit(bits, start + 8 * |lead|, OctetBits(p[0]), OctetBits(rest));
    PieceRead(p, pad, bits, pos);
    ManyAt(bits, start + 8 * |lead|, p[0]);
    if |p| == 1 {
      assert p == [p[0]] && Join(p) == p[0] by { assert Join(p[1..]) == []; assert p[0] + [] == p[0]; }
      assert rest == [] && OctetBits(rest) == [] by { assert p[1..] == []; }
    } else {
      var next := start + 8 * |lead| + 8 * |p[0]|;
      assert next % 8 == 0 && Padding(next) == [] by { hide At; }
      assert [] + OctetBits(rest) == OctetBits(rest);
      PiecesRead(p[1..], [], bits, next);
    }
  }

  lemma PieceRead(p: seq<seq<octet>>, pad: seq<bit>, bits: seq<bit>, pos: nat)
    requires Pieces(p) && |pad| == |Padding(pos)| && At(bits, pos, pad)
    requires At(bits, pos + |pad|, OctetBits(LengthOctets(|p[0]|)))
    ensures pos <= |bits|
    ensures ReadLength(bits, pos)
         == Some(Read((|p[0]|, |p| > 1), pos + |pad| + 8 * |LengthOctets(|p[0]|)|))
  {
    hide *;
    PieceSize(p);
    PastPadding(pad, bits, pos);
    HeaderOctets(|p[0]|);
    HeaderRoundTrip(|p[0]|, bits, pos + |pad|);
    assert |OctetBits(LengthOctets(|p[0]|))| == 8 * |LengthOctets(|p[0]|)|;
  }

  lemma PieceSize(p: seq<seq<octet>>)
    requires Pieces(p)
    ensures p != [] && MaySave(|p[0]|) == |p[0]|
    ensures |p[0]| >= FRAGMENT <==> |p| > 1
  {
    SizeIs(|p[0]|);
  }

  lemma PastPadding(pad: seq<bit>, bits: seq<bit>, pos: nat)
    requires |pad| == |Padding(pos)| && At(bits, pos, pad)
    ensures pos + |pad| <= |bits|
    ensures ReadLength(bits, pos) == ReadHeader(bits, pos + |pad|)
  {
    hide FromBits, ReadHeader;
  }

  /**
    Without flags the decoder takes the octets as they stand, and adds a low bound to
    their number when there is one, with 64-bit wrap-around; the number must fit.
   */
  lemma UnflaggedStored(bits: seq<bit>, pos: nat, c: Constraint, unsigned: bool, octets: Read<seq<octet>>) returns (v: int)
    requires !(c.semi || c.constrained || c.extensible) && pos <= |bits| && ReadUnconstrained(bits, pos) == Some(octets)
    ensures c.lb == 0 ==> Decoding(bits, pos, Some(c), unsigned) == Some(octets)
    ensures c.lb != 0 ==>
              if -0x8000_0000_0000_0000 <= Signed(octets.value) <= 0x7fff_ffff_ffff_ffff then
                && Decoding(bits, pos, Some(c), unsigned) == Some(Read(Der(v), octets.pos))
                && (Signed(octets.value) + c.lb - v) % 0x1_0000_0000_0000_0000 == 0
                && -0x8000_0000_0000_0000 <= v <= 0x7fff_ffff_ffff_ffff
              else Decoding(bits, pos, Some(c), unsigned) == None
  {
    hide ReadUnconstrained, Der, Signed;
    v := ToImax(Signed(octets.value) + c.lb);
    Congruent(Signed(octets.value) + c.lb, v);
  }
}
