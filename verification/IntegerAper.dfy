/**
  INTEGER in aligned PER (ITU-T X.691): constrained fields, the octet-counted
  form for ranges over 16 bits, and the length-prefixed unconstrained form.
 */
module IntegerAper {
  import opened Octets
  import opened Integer
  import opened BitStream
  import opened PerFields

  /** `asn_per_constraint_t`; the three flags are APC_SEMI_CONSTRAINED, APC_CONSTRAINED and APC_EXTENSIBLE. */
  datatype Constraint = Constraint(semi: bool, constrained: bool, extensible: bool, rangeBits: int, lb: int, ub: int) {
    predicate Flagged() {
      semi || constrained || extensible
    }

    /** The bounds as the comparison reads them: cast to unsigned long for unsigned fields. */
    function Low(unsigned: bool): int {
      if unsigned then ToUmax(lb) else lb
    }

    function High(unsigned: bool): int {
      if unsigned then ToUmax(ub) else ub
    }

    /** What the compiled constraint tables guarantee: longs, and a width that covers the range. */
    predicate WellFormed(unsigned: bool) {
      && FitsImax(lb) && FitsImax(ub)
      && rangeBits <= 64
      && (rangeBits >= 0 ==>
            && constrained && !semi
            && Low(unsigned) <= High(unsigned)
            && High(unsigned) - Low(unsigned) < Pow2(rangeBits))
    }

    /** The value lies outside the extension root. */
    predicate Outside(v: int, unsigned: bool) {
      if semi then v < Low(unsigned)
      else rangeBits >= 0 && (v < Low(unsigned) || v > High(unsigned))
    }
  }

  // ----- fields of a constrained range ---------------------------------------

  function RangeOctets(rangeBits: nat): nat {
    rangeBits / 8 + if rangeBits % 8 > 0 then 1 else 0
  }

  /** The least width i' >= i with 2^i' >= m: the scan for the size of the length field. */
  function LengthBits(m: nat, i: nat): (w: nat)
    ensures w >= i && Pow2(w) >= m
    ensures w > i ==> Pow2(w - 1) < m
    decreases m - Pow2(i)
  {
    if Pow2(i) >= m then i else LengthBits(m, i + 1)
  }

  /** The highest non-zero octet of v among octets 0..j, or 0. */
  function TopOctet(v: nat, j: nat): (k: nat)
    ensures k <= j
    ensures k < j ==> ShiftOctets(v, k + 1) == 0
    ensures k > 0 ==> ShiftOctets(v, k) != 0
  {
    if j == 0 || ShiftOctets(v, j) != 0 then j else TopOctet(v, j - 1)
  }

  /** The bits for offset v into a range of the given width, written at stream offset `off`. */
  function RangeField(rangeBits: nat, v: nat, off: nat): seq<bit> {
    if rangeBits < 8 then ToBits(v, rangeBits)
    else if rangeBits == 8 then Padding(off) + ToBits(v, 8)
    else if rangeBits <= 16 then Padding(off) + ToBits(v, 16)
    else
      var i := LengthBits(RangeOctets(rangeBits), 1);
      var j := TopOctet(v, 7);
      ToBits(j, i) + (Padding(off + i) + OctetBits(OctetsOf(v, j + 1)))
  }

  /**
    The offset read back; the octet-counted form reads length + 1 octets, and is the
    one that refuses padding other than zeros.
   */
  function ReadRange(rangeBits: nat, bits: seq<bit>, pos: nat): (r: Option<Read<nat>>)
    requires pos <= |bits|
    ensures r.Some? ==> r.value.pos <= |bits|
  {
    if rangeBits < 8 then Few(bits, pos, rangeBits)
    else if rangeBits <= 16 then
      var p :- Aligned(bits, pos);
      Few(bits, p.pos, if rangeBits == 8 then 8 else 16)
    else
      var length :- Few(bits, pos, LengthBits(RangeOctets(rangeBits), 1));
      var p :- Aligned(bits, length.pos);
      if p.value != 0 then None
      else
        var octets :- Many(bits, p.pos, 8 * (length.value + 1));
        Some(Read(Unsigned(octets.value), octets.pos))
  }

  lemma Pow256IsPow2(v: nat, k: nat, rangeBits: nat)
    requires ShiftOctets(v, k) != 0 && v < Pow2(rangeBits)
    ensures 8 * k < rangeBits
  {
    Pow2Of8(k);
    ShiftOctetsIsZero(v, k);
    if 8 * k >= rangeBits {
      Pow2Monotone(rangeBits, 8 * k);
    }
  }

  /** The octet count minus one fits its length field, and the counted octets hold all of v. */
  lemma CountFits(rangeBits: nat, v: nat)
    requires 16 < rangeBits <= 64 && v < Pow2(rangeBits)
    ensures var j, i := TopOctet(v, 7), LengthBits(RangeOctets(rangeBits), 1);
            i <= 3 && j < RangeOctets(rangeBits) && j < Pow2(i) && v < Pow256(j + 1)
  {
    var j, m := TopOctet(v, 7), RangeOctets(rangeBits);
    if j > 0 { Pow256IsPow2(v, j, rangeBits); }
    assert m <= 8 && Pow2(2) == 4 && Pow2(3) == 8;
    TopOctetsHold(rangeBits, v);
  }

  /** The octets up to the highest non-zero one hold all of v. */
  lemma TopOctetsHold(rangeBits: nat, v: nat)
    requires rangeBits <= 64 && v < Pow2(rangeBits)
    ensures v < Pow256(TopOctet(v, 7) + 1)
  {
    var j := TopOctet(v, 7);
    if j == 7 {
      hide *;
      Pow2Of8(8);
      Pow2Monotone(rangeBits, 64);
    } else {
      ShiftOctetsIsZero(v, j + 1);
    }
  }

  lemma CountedRoundTrip(rangeBits: nat, v: nat, bits: seq<bit>, pos: nat)
    requires 16 < rangeBits <= 64 && v < Pow2(rangeBits)
    requires At(bits, pos, RangeField(rangeBits, v, pos))
    ensures ReadRange(rangeBits, bits, pos) == Some(Read(v, pos + |RangeField(rangeBits, v, pos)|))
  {
    hide At, ToBits, OctetBits, OctetsOf, Unsigned, Few, Many, Aligned, LengthBits, TopOctet, Pow2, Pow256;
    var i, j := LengthBits(RangeOctets(rangeBits), 1), TopOctet(v, 7);
    var octets := OctetsOf(v, j + 1);
    CountFits(rangeBits, v);
    AtSplit(bits, pos, ToBits(j, i), Padding(pos + i) + OctetBits(octets));
    FewAt(bits, pos, j, i);
    AtSplit(bits, pos + i, Padding(pos + i), OctetBits(octets));
    AlignedAt(bits, pos + i);
    ManyAt(bits, pos + i + |Padding(pos + i)|, octets);
    UnsignedOctetsOf(v, j + 1);
  }

  /** Any offset that fits the range is read back, from any bit position. */
  lemma RangeRoundTrip(rangeBits: nat, v: nat, bits: seq<bit>, pos: nat)
    requires rangeBits <= 64 && v < Pow2(rangeBits)
    requires At(bits, pos, RangeField(rangeBits, v, pos))
    ensures ReadRange(rangeBits, bits, pos) == Some(Read(v, pos + |RangeField(rangeBits, v, pos)|))
  {
    hide At, ToBits, Few, Many, Aligned, Pow2, LengthBits, TopOctet, OctetsOf, OctetBits, Padding, Unsigned;
    if rangeBits < 8 {
      FewAt(bits, pos, v, rangeBits);
    } else if rangeBits <= 16 {
      AlignedFieldAt(bits, pos, v, rangeBits, if rangeBits == 8 then 8 else 16);
    } else {
      CountedRoundTrip(rangeBits, v, bits, pos);
    }
  }

  lemma AlignedFieldAt(bits: seq<bit>, pos: nat, v: nat, rangeBits: nat, w: nat)
    requires rangeBits <= w <= 31 && v < Pow2(rangeBits)
    requires At(bits, pos, Padding(pos) + ToBits(v, w))
    ensures var p := pos + |Padding(pos)|;
            p <= |bits| && Aligned(bits, pos) == Some(Read(0, p)) && Few(bits, p, w) == Some(Read(v, p + w))
  {
    hide ToBits, Few, Padding;
    Pow2Monotone(rangeBits, w);
    AtSplit(bits, pos, Padding(pos), ToBits(v, w));
    AlignedAt(bits, pos);
    FewAt(bits, pos + |Padding(pos)|, v, w);
  }

  /** In front of a field of 8 to 16 bits the padding may be anything. */
  lemma PaddingIgnored(rangeBits: nat, a: seq<bit>, b: seq<bit>, pos: nat)
    requires 8 <= rangeBits <= 16 && |a| == |b| && pos + |Padding(pos)| <= |a|
    requires var p := pos + |Padding(pos)|; a[p..] == b[p..]
    ensures ReadRange(rangeBits, a, pos) == ReadRange(rangeBits, b, pos)
  {
    hide FromBits;
    var p, w := pos + |Padding(pos)|, if rangeBits == 8 then 8 else 16;
    if p + w <= |a| {
      assert a[p..p + w] == a[p..][..w] && b[p..p + w] == b[p..][..w];
    }
  }

  /** In front of the octets of the counted form it must be zeros. */
  lemma PaddingChecked(rangeBits: nat, bits: seq<bit>, pos: nat, length: Read<nat>, aligned: Read<nat>)
    requires rangeBits > 16 && pos <= length.pos <= |bits|
    requires Few(bits, pos, LengthBits(RangeOctets(rangeBits), 1)) == Some(length)
    requires Aligned(bits, length.pos) == Some(aligned) && 8 * (length.value + 1) <= |bits| - aligned.pos
    ensures length.pos <= aligned.pos <= |bits|
    ensures ReadRange(rangeBits, bits, pos).Some?
        <==> bits[length.pos..aligned.pos] == Zeros(aligned.pos - length.pos)
  {
    hide LengthBits, FromBits, ToBits;
    var padding := bits[length.pos..aligned.pos];
    if length.pos % 8 == 0 {
      assert padding == Zeros(0);
    } else {
      FromBitsOfZeros(|padding|);
      ToFromBits(padding);
      ToBitsOfZero(|padding|);
    }
  }

  // ----- the unconstrained form ----------------------------------------------

  /** Contents of any length, in length-prefixed fragments, from stream offset `off`. */
  function Unconstrained(contents: seq<octet>, off: nat): seq<bit>
    decreases |contents|
  {
    if contents == [] then []
    else
      var head := Padding(off) + LengthHeader(|contents|);
      var k := MaySave(|contents|);
      head + (OctetBits(contents[..k]) + Unconstrained(contents[k..], off + |head| + 8 * k))
  }

  /** `aper_get_length` without a range: a length determinant on an octet boundary. */
  function ReadLength(bits: seq<bit>, pos: nat): (r: Option<Read<(nat, bool)>>)
    requires pos <= |bits|
    ensures r.Some? ==> pos < r.value.pos <= |bits|
  {
    var p :- Aligned(bits, pos);
    ReadHeader(bits, p.pos)
  }

  function ReadUnconstrained(bits: seq<bit>, pos: nat): (r: Option<Read<seq<octet>>>)
    requires pos <= |bits|
    ensures r.Some? ==> pos < r.value.pos <= |bits|
    decreases |bits| - pos
  {
    var length :- ReadLength(bits, pos);
    var octets :- Many(bits, length.pos, 8 * length.value.0);
    if !length.value.1 then Some(octets)
    else
      var rest :- ReadUnconstrained(bits, octets.pos);
      Some(Read(octets.value + rest.value, rest.pos))
  }

  /** Octet counts the decoder sees the end of: the encoder never writes a closing zero length. */
  predicate Chunkable(n: nat) {
    n > 0 && (n < FRAGMENT || n % FRAGMENT != 0)
  }

  lemma LengthRoundTrip(n: nat, bits: seq<bit>, pos: nat)
    requires At(bits, pos, Padding(pos) + LengthHeader(n))
    ensures ReadLength(bits, pos)
         == Some(Read((MaySave(n), n >= FRAGMENT), pos + |Padding(pos) + LengthHeader(n)|))
  {
    hide At, LengthHeader, ReadHeader, Aligned;
    AtSplit(bits, pos, Padding(pos), LengthHeader(n));
    AlignedAt(bits, pos);
    HeaderRoundTrip(n, bits, pos + |Padding(pos)|);
  }

  lemma {:induction false} UnconstrainedRoundTrip(contents: seq<octet>, bits: seq<bit>, pos: nat)
    requires Chunkable(|contents|)
    requires At(bits, pos, Unconstrained(contents, pos))
    ensures ReadUnconstrained(bits, pos) == Some(Read(contents, pos + |Unconstrained(contents, pos)|))
    decreases |contents|
  {
    hide At, OctetBits, LengthHeader, ReadLength, Many, Pack, Padding;
    var k := MaySave(|contents|);
    var next := UnconstrainedStep(contents, bits, pos);
    if |contents| < FRAGMENT {
      assert contents[..k] == contents && contents[k..] == [];
    } else {
      assert |contents[k..]| == |contents| - k;
      UnconstrainedRoundTrip(contents[k..], bits, next);
      assert contents == contents[..k] + contents[k..];
    }
  }

  /** The first fragment is read back and the rest of the encoding starts where reading stops. */
  lemma UnconstrainedStep(contents: seq<octet>, bits: seq<bit>, pos: nat) returns (next: nat)
    requires contents != []
    requires At(bits, pos, Unconstrained(contents, pos))
    ensures ReadLength(bits, pos).Some?
    ensures ReadLength(bits, pos).value.value == (MaySave(|contents|), |contents| >= FRAGMENT)
    ensures Many(bits, ReadLength(bits, pos).value.pos, 8 * MaySave(|contents|))
         == Some(Read(contents[..MaySave(|contents|)], next))
    ensures next % 8 == 0
    ensures At(bits, next, Unconstrained(contents[MaySave(|contents|)..], next))
    ensures next + |Unconstrained(contents[MaySave(|contents|)..], next)| == pos + |Unconstrained(contents, pos)|
  {
    hide At, OctetBits, LengthHeader, ReadLength, Many, Pack;
    var k := MaySave(|contents|);
    var head := Padding(pos) + LengthHeader(|contents|);
    next := pos + |head| + 8 * k;
    var rest := Unconstrained(contents[k..], next);
    AtSplit(bits, pos, head, OctetBits(contents[..k]) + rest);
    LengthRoundTrip(|contents|, bits, pos);
    AtSplit(bits, pos + |head|, OctetBits(contents[..k]), rest);
    ManyAt(bits, pos + |head|, contents[..k]);
    assert |contents[..k]| == k;
    assert ReadLength(bits, pos).value.pos == pos + |head|;
  }

  /** A whole number of fragments has no end the decoder sees: it fails, or goes on into what follows. */
  lemma {:induction false} UnterminatedFragments(contents: seq<octet>, bits: seq<bit>, pos: nat)
    requires |contents| % FRAGMENT == 0
    requires At(bits, pos, Unconstrained(contents, pos))
    ensures var r := ReadUnconstrained(bits, pos);
            r.Some? ==> r.value.pos > pos + |Unconstrained(contents, pos)|
    decreases |contents|
  {
    hide At, LengthHeader, ReadLength, Many, OctetBits, Padding;
    if contents != [] {
      var k := MaySave(|contents|);
      var next := UnconstrainedStep(contents, bits, pos);
      hide Unconstrained, MaySave;
      assert |contents[k..]| == |contents| - k;
      UnterminatedFragments(contents[k..], bits, next);
    }
  }

  // ----- whole values ----------------------------------------------------------

  /** The bits `INTEGER_encode_aper` appends at stream offset `off`; None is its failure. */
  function Encoding(contents: seq<octet>, ct: Option<Constraint>, unsigned: bool, off: nat): Option<seq<bit>> {
    if contents == [] then None
    else if ct == None then Some(Unconstrained(contents, off))
    else
      var c := ct.value;
      var v :- Native(contents, unsigned);
      var ext := ExtensionBits(c.extensible, c.Outside(v, unsigned));
      if c.Outside(v, unsigned) then
        if c.extensible then Some(ext + Unconstrained(contents, off + 1)) else None
      else if c.rangeBits >= 0 then
        Some(ext + RangeField(c.rangeBits, ToUmax(v - c.lb), off + |ext|))
      else if c.lb != 0 then None
      else Some(ext + Unconstrained(contents, off + |ext|))
  }

  /** The constraint that remains in force after the optional extension bit. */
  function ReadRoot(bits: seq<bit>, pos: nat, ct: Option<Constraint>): (r: Option<Read<Option<Constraint>>>)
    requires pos <= |bits|
    ensures r.Some? ==> pos <= r.value.pos <= |bits|
  {
    var inext :- ReadExtension(bits, pos, ct.Some? && ct.value.extensible);
    Some(Read(if inext.value != 0 then None else ct, inext.pos))
  }

  /** The value rebuilt from an offset into the range; the width selects the conversion. */
  function Rebased(c: Constraint, raw: nat, unsigned: bool): int {
    var value := ToImax(ToImax(raw) + c.lb);
    if unsigned && c.rangeBits > 16 then ToUmax(value) else value
  }

  /** What `INTEGER_decode_aper` leaves in the buffer and where it stops; None is its failure. */
  function Decoding(bits: seq<bit>, pos: nat, ct: Option<Constraint>, unsigned: bool): (r: Option<Read<seq<octet>>>)
    requires pos <= |bits|
    ensures r.Some? ==> r.value.pos <= |bits|
  {
    var root :- ReadRoot(bits, pos, ct);
    if root.value.Some? && root.value.value.Flagged() then
      var c := root.value.value;
      if c.rangeBits < 0 then None
      else
        var raw :- ReadRange(c.rangeBits, bits, root.pos);
        Some(Read(Der(Rebased(c, raw.value, unsigned)), raw.pos))
    else
      var octets :- ReadUnconstrained(bits, root.pos);
      if root.value.Some? && root.value.value.lb != 0 then
        if FitsImax(Signed(octets.value))
        then Some(Read(Der(ToImax(Signed(octets.value) + root.value.value.lb)), octets.pos))
        else None
      else Some(octets)
  }

  /** The value goes out as an offset into the range, not in the unconstrained form. */
  predicate Ranged(contents: seq<octet>, ct: Option<Constraint>, unsigned: bool) {
    && ct.Some?
    && Native(contents, unsigned).Some?
    && ct.value.rangeBits >= 0
    && !ct.value.Outside(Native(contents, unsigned).value, unsigned)
  }

  /** What a faithful decoder returns: canonical contents of a ranged value, the very octets otherwise. */
  function Returned(contents: seq<octet>, ct: Option<Constraint>, unsigned: bool): seq<octet> {
    if Ranged(contents, ct, unsigned) then Der(Native(contents, unsigned).value) else contents
  }

  /** When the decoder undoes the encoder, told from the value, its constraint and its size alone. */
  predicate Faithful(contents: seq<octet>, ct: Option<Constraint>, unsigned: bool) {
    if Ranged(contents, ct, unsigned) then
      unsigned && ct.value.rangeBits <= 16 ==> Unsigned(contents) <= IMAX_MAX
    else
      && Chunkable(|contents|)
      && (ct == None || Native(contents, unsigned) == None || !ct.value.Flagged()
          || ct.value.Outside(Native(contents, unsigned).value, unsigned))
  }

  lemma WrapAdd(x: int, y: int)
    ensures ToUmax(ToImax(x) + y) == ToUmax(x + y)
  {
    var k := x / TWO64;
    assert x == TWO64 * k + x % TWO64;
  }

  /** The offset is the distance from the low bound, in whichever reading the field has. */
  lemma RebaseOffset(c: Constraint, v: int, unsigned: bool)
    requires c.WellFormed(unsigned) && c.rangeBits >= 0 && !c.Outside(v, unsigned)
    requires if unsigned then FitsUmax(v) else FitsImax(v)
    ensures ToUmax(v - c.lb) == v - c.Low(unsigned) < Pow2(c.rangeBits)
    ensures ToUmax(v - c.Low(unsigned) + c.lb) == ToUmax(v)
  {
    hide Pow2, ToUmax;
    var low := c.Low(unsigned);
    assert FitsUmax(v - low) by { UnsignedLow(c.lb); UnsignedLow(c.ub); }
    UnsignedLow(c.lb);
    ToUmaxFits(v - low);
    if low == c.lb {
      assert v - low + c.lb == v;
    } else {
      ToUmaxShifts(v - low);
      ToUmaxShifts(v - low + c.lb);
      assert v - low + TWO64 == v - c.lb && v - low + c.lb + TWO64 == v;
    }
  }

  /** A bound read as unsigned is itself, or 2^64 above itself. */
  lemma UnsignedLow(b: int)
    requires FitsImax(b)
    ensures ToUmax(b) == if b < 0 then b + TWO64 else b
  {
  }

  lemma ToUmaxShifts(x: int)
    ensures ToUmax(x + TWO64) == ToUmax(x)
  {
  }

  lemma RebasedValue(c: Constraint, v: int, unsigned: bool)
    requires c.WellFormed(unsigned) && c.rangeBits >= 0 && !c.Outside(v, unsigned)
    requires if unsigned then FitsUmax(v) else FitsImax(v)
    ensures ToImax(ToImax(ToUmax(v - c.lb)) + c.lb) == ToImax(v)
  {
    RebaseOffset(c, v, unsigned);
    hide *;
    var raw := ToUmax(v - c.lb);
    var low := c.Low(unsigned);
    assert raw + c.lb == v - low + c.lb;
    WrapAdd(raw, c.lb);
    SamePattern(ToImax(raw) + c.lb, v);
  }

  lemma SamePattern(a: int, b: int)
    requires ToUmax(a) == ToUmax(b)
    ensures ToImax(a) == ToImax(b)
  {
  }

  lemma RebaseRoundTrip(c: Constraint, v: int, unsigned: bool)
    requires c.WellFormed(unsigned) && c.rangeBits >= 0 && !c.Outside(v, unsigned)
    requires if unsigned then FitsUmax(v) else FitsImax(v)
    ensures ToUmax(v - c.lb) < Pow2(c.rangeBits)
    ensures Rebased(c, ToUmax(v - c.lb), unsigned)
         == if unsigned && c.rangeBits > 16 then v else ToImax(v)
  {
    hide Pow2, ToImax, ToUmax;
    RebaseOffset(c, v, unsigned);
    RebasedValue(c, v, unsigned);
    if unsigned { ToUmaxFits(v); }
    assert ToUmax(ToImax(v)) == ToUmax(v);
  }

  lemma DerInjective(a: int, b: int)
    requires Der(a) == Der(b)
    ensures a == b
  {
    DerIsCanonical(a);
    DerIsCanonical(b);
  }

  /** Ranged values: read back from any position, and canonical, exactly when Faithful. */
  lemma RangedRoundTrip(contents: seq<octet>, c: Constraint, unsigned: bool, bits: seq<bit>, pos: nat)
    requires c.WellFormed(unsigned) && Ranged(contents, Some(c), unsigned) && contents != []
    requires At(bits, pos, Encoding(contents, Some(c), unsigned, pos).value)
    ensures var end := pos + |Encoding(contents, Some(c), unsigned, pos).value|;
            (Decoding(bits, pos, Some(c), unsigned) == Some(Read(Returned(contents, Some(c), unsigned), end)))
            == Faithful(contents, Some(c), unsigned)
  {
    hide Der, Pow2, RangeField, ReadRange, Unsigned, Signed, Rebased;
    var v := Native(contents, unsigned).value;
    var raw := ToUmax(v - c.lb);
    var ext := ExtensionBits(c.extensible, false);
    var p := pos + |ext|;
    RebaseRoundTrip(c, v, unsigned);
    AtSplit(bits, pos, ext, RangeField(c.rangeBits, raw, p));
    RootAt(bits, pos, Some(c), false);
    RangeRoundTrip(c.rangeBits, raw, bits, p);
    if ToImax(v) != v && Der(ToImax(v)) == Der(v) {
      DerInjective(ToImax(v), v);
    }
  }

  lemma RootAt(bits: seq<bit>, pos: nat, ct: Option<Constraint>, outside: bool)
    requires At(bits, pos, ExtensionBits(ct.Some? && ct.value.extensible, outside))
    ensures var open := ct.Some? && ct.value.extensible && outside;
            ReadRoot(bits, pos, ct)
            == Some(Read(if open then None else ct, pos + |ExtensionBits(ct.Some? && ct.value.extensible, outside)|))
  {
    ExtensionRoundTrip(ct.Some? && ct.value.extensible, outside, bits, pos);
  }

  /** The decoder reaches unconstrained contents with the constraint dropped when the value lay outside the root. */
  lemma OpenAt(contents: seq<octet>, ct: Option<Constraint>, unsigned: bool, bits: seq<bit>, pos: nat) returns (p: nat)
    requires !Ranged(contents, ct, unsigned)
    requires Encoding(contents, ct, unsigned, pos).Some?
    requires At(bits, pos, Encoding(contents, ct, unsigned, pos).value)
    ensures pos <= |bits| && At(bits, p, Unconstrained(contents, p))
    ensures p + |Unconstrained(contents, p)| == pos + |Encoding(contents, ct, unsigned, pos).value|
    ensures ct.Some? ==> Native(contents, unsigned).Some?
    ensures var open := ct.Some? && ct.value.Outside(Native(contents, unsigned).value, unsigned);
            && ReadRoot(bits, pos, ct) == Some(Read(if open then None else ct, p))
            && (ct.Some? && !open ==> ct.value.lb == 0)
  {
    hide Unconstrained, ReadRoot, Unsigned, Signed, At;
    var outside := ct.Some? && ct.value.Outside(Native(contents, unsigned).value, unsigned);
    var ext := ExtensionBits(ct.Some? && ct.value.extensible, outside);
    p := pos + |ext|;
    assert [] + Unconstrained(contents, pos) == Unconstrained(contents, pos);
    AtSplit(bits, pos, ext, Unconstrained(contents, p));
    RootAt(bits, pos, ct, outside);
  }

  /** Without flags and bounds the decoder reads the unconstrained form. */
  lemma DecodingOpen(bits: seq<bit>, pos: nat, ct: Option<Constraint>, unsigned: bool, root: Read<Option<Constraint>>)
    requires pos <= |bits| && ReadRoot(bits, pos, ct) == Some(root)
    requires root.value.Some? ==> !root.value.value.Flagged() && root.value.value.lb == 0
    ensures Decoding(bits, pos, ct, unsigned) == ReadUnconstrained(bits, root.pos)
  {
    hide ReadRoot, ReadUnconstrained, ReadRange;
  }

  /** Under flags without a range the decoder fails. */
  lemma DecodingFlagged(bits: seq<bit>, pos: nat, ct: Option<Constraint>, unsigned: bool, root: Read<Option<Constraint>>)
    requires pos <= |bits| && ReadRoot(bits, pos, ct) == Some(root)
    requires root.value.Some? && root.value.value.Flagged() && root.value.value.rangeBits < 0
    ensures Decoding(bits, pos, ct, unsigned) == None
  {
    hide ReadRoot, ReadUnconstrained, ReadRange;
  }

  /** Which constraint the decoder is left with when a value went out in the unconstrained form. */
  lemma OpenIsFaithful(contents: seq<octet>, ct: Option<Constraint>, unsigned: bool, pos: nat)
    requires !Ranged(contents, ct, unsigned)
    requires Encoding(contents, ct, unsigned, pos).Some?
    ensures contents != [] && (ct.Some? ==> Native(contents, unsigned).Some?)
    ensures var inRoot := ct.Some? && !ct.value.Outside(Native(contents, unsigned).value, unsigned);
            && (inRoot ==> ct.value.rangeBits < 0)
            && (Faithful(contents, ct, unsigned) <==> Chunkable(|contents|) && !(inRoot && ct.value.Flagged()))
  {
    hide Unconstrained, Chunkable, Unsigned, Signed;
  }

  /**
    Unconstrained contents: read back octet for octet, and their bits consumed exactly,
    from whatever stream holds them, exactly when Faithful.
   */
  lemma OpenRoundTrip(contents: seq<octet>, ct: Option<Constraint>, unsigned: bool, bits: seq<bit>, pos: nat)
    requires !Ranged(contents, ct, unsigned)
    requires Encoding(contents, ct, unsigned, pos).Some?
    requires At(bits, pos, Encoding(contents, ct, unsigned, pos).value)
    ensures (Decoding(bits, pos, ct, unsigned)
             == Some(Read(contents, pos + |Encoding(contents, ct, unsigned, pos).value|)))
            == Faithful(contents, ct, unsigned)
  {
    hide *;
    var p := OpenAt(contents, ct, unsigned, bits, pos);
    var root := ReadRoot(bits, pos, ct).value;
    OpenIsFaithful(contents, ct, unsigned, pos);
    if root.value.Some? && root.value.value.Flagged() {
      DecodingFlagged(bits, pos, ct, unsigned, root);
    } else {
      DecodingOpen(bits, pos, ct, unsigned, root);
      if Chunkable(|contents|) {
        UnconstrainedRoundTrip(contents, bits, p);
      } else {
        NotChunkable(|contents|);
        UnterminatedFragments(contents, bits, p);
      }
    }
  }

  lemma NotChunkable(n: nat)
    requires n > 0 && !Chunkable(n)
    ensures n % FRAGMENT == 0
  {
  }

  /** Every value, in either form: the decoder undoes the encoder exactly when Faithful. */
  lemma RoundTrip(contents: seq<octet>, ct: Option<Constraint>, unsigned: bool, bits: seq<bit>, pos: nat)
    requires ct.Some? ==> ct.value.WellFormed(unsigned)
    requires Encoding(contents, ct, unsigned, pos).Some?
    requires At(bits, pos, Encoding(contents, ct, unsigned, pos).value)
    ensures var end := pos + |Encoding(contents, ct, unsigned, pos).value|;
            (Decoding(bits, pos, ct, unsigned) == Some(Read(Returned(contents, ct, unsigned), end)))
            == Faithful(contents, ct, unsigned)
  {
    hide Decoding, Faithful, At;
    if Ranged(contents, ct, unsigned) {
      RangedRoundTrip(contents, ct.value, unsigned, bits, pos);
    } else {
      OpenRoundTrip(contents, ct, unsigned, bits, pos);
    }
  }

  // ----- sequences of values -----------------------------------------------------

  datatype Item = Item(contents: seq<octet>, ct: Option<Constraint>, unsigned: bool) {
    predicate Codable() {
      && contents != []
      && (ct.Some? ==> ct.value.WellFormed(unsigned))
      && Encoding(contents, ct, unsigned, 0).Some?
      && Faithful(contents, ct, unsigned)
    }
  }

  /** Values encoded one after the other from stream offset `off`. */
  function EncodeAll(items: seq<Item>, off: nat): Option<seq<bit>> {
    if items == [] then Some([])
    else
      var first :- Encoding(items[0].contents, items[0].ct, items[0].unsigned, off);
      var rest :- EncodeAll(items[1..], off + |first|);
      Some(first + rest)
  }

  /** As many values decoded, by the same constraints. */
  function DecodeAll(items: seq<Item>, bits: seq<bit>, pos: nat): Option<Read<seq<seq<octet>>>>
    requires pos <= |bits|
  {
    if items == [] then Some(Read([], pos))
    else
      var first :- Decoding(bits, pos, items[0].ct, items[0].unsigned);
      var rest :- DecodeAll(items[1..], bits, first.pos);
      Some(Read([first.value] + rest.value, rest.pos))
  }

  function ReturnedAll(items: seq<Item>): seq<seq<octet>> {
    if items == [] then []
    else [Returned(items[0].contents, items[0].ct, items[0].unsigned)] + ReturnedAll(items[1..])
  }

  lemma EncodingAnywhere(contents: seq<octet>, ct: Option<Constraint>, unsigned: bool, off: nat, off': nat)
    ensures Encoding(contents, ct, unsigned, off).Some? <==> Encoding(contents, ct, unsigned, off').Some?
  {
  }

  /** Any sequence of values is read back in order, consuming exactly the bits written. */
  lemma {:induction false} SequenceRoundTrip(items: seq<Item>, bits: seq<bit>, pos: nat)
    requires pos <= |bits|
    requires forall i :: 0 <= i < |items| ==> items[i].Codable()
    ensures EncodeAll(items, pos).Some?
    ensures At(bits, pos, EncodeAll(items, pos).value) ==>
              DecodeAll(items, bits, pos)
              == Some(Read(ReturnedAll(items), pos + |EncodeAll(items, pos).value|))
  {
    hide Encoding, Decoding, Faithful, Ranged, Returned;
    if items != [] {
      var it := items[0];
      assert it.Codable();
      EncodingAnywhere(it.contents, it.ct, it.unsigned, 0, pos);
      var first := Encoding(it.contents, it.ct, it.unsigned, pos).value;
      assert EncodeAll(items[1..], pos + |first|).Some? by {
        SequenceRoundTrip(items[1..], bits + Zeros(pos + |first|), pos + |first|);
      }
      var rest := EncodeAll(items[1..], pos + |first|).value;
      AtSplit(bits, pos, first, rest);
      if At(bits, pos, first + rest) {
        RoundTrip(it.contents, it.ct, it.unsigned, bits, pos);
        SequenceRoundTrip(items[1..], bits, pos + |first|);
      }
    }
  }

  // ----- the encoder and the decoder ------------------------------------------------

  /** The scan for the width of the length field. */
  method LengthWidth(rangeBits: nat) returns (i: nat)
    ensures i == LengthBits(RangeOctets(rangeBits), 1)
  {
    var maxRangeBytes := rangeBits / 8 + if rangeBits % 8 > 0 then 1 else 0;
    i := 1;
    while Pow2(i) < maxRangeBytes
      invariant LengthBits(maxRangeBytes, i) == LengthBits(maxRangeBytes, 1)
      decreases maxRangeBytes - Pow2(i)
    {
      i := i + 1;
    }
  }

  /** The range branch of `INTEGER_encode_aper`. */
  method PutRange(po: Writer, rangeBits: nat, v: nat) returns (ok: bool)
    requires rangeBits <= 64
    modifies po
    ensures ok && po.bits == old(po.bits) + RangeField(rangeBits, v, old(|po.bits|))
  {
    hide ToBits, LengthBits, TopOctet;
    if rangeBits < 8 {
      ok := po.PutFew(v, rangeBits);
    } else if rangeBits == 8 {
      ok := po.PutAlign();
      ok := po.PutFew(v, rangeBits);
    } else if rangeBits <= 16 {
      ok := po.PutAlign();
      ok := po.PutFew(v, 16);
    } else {
      ok := PutCounted(po, rangeBits, v);
    }
  }

  method HighestOctet(v: nat) returns (j: nat)
    ensures j == TopOctet(v, 7)
  {
    j := 7;
    while j != 0
      invariant j <= 7 && TopOctet(v, j) == TopOctet(v, 7)
      decreases j
    {
      if ShiftOctets(v, j) != 0 { break; }
      j := j - 1;
    }
  }

  /** Ranges over 16 bits: octet count less one, alignment, then the octets of the offset. */
  method PutCounted(po: Writer, rangeBits: nat, v: nat) returns (ok: bool)
    requires 16 < rangeBits <= 64
    modifies po
    ensures ok && po.bits == old(po.bits) + RangeField(rangeBits, v, old(|po.bits|))
  {
    hide ToBits, OctetsOf, OctetBits, ShiftOctets, LengthBits, TopOctet, Pow2;
    var width := LengthWidth(rangeBits);
    var j := HighestOctet(v);
    WidthIsSmall(rangeBits);
    ghost var off := |po.bits|;
    ok := po.PutFew(j, width);
    ok := po.PutAlign();
    ghost var head := po.bits;
    ghost var octets := OctetsOf(v, j + 1);
    var i := 0;
    NoOctets(octets);
    while i <= j
      invariant 0 <= i <= j + 1
      invariant po.bits == head + OctetBits(octets[..i])
    {
      OctetAdded(octets, i);
      OctetsOfAt(v, j + 1, i);
      Associative(head, OctetBits(octets[..i]), ToBits(octets[i], 8));
      ok := po.PutFew(ShiftOctets(v, j - i) % 256, 8);
      i := i + 1;
    }
    assert octets[..j + 1] == octets;
    ok := true;
  }

  /** The count of octets takes two bits for ranges of up to 32 bits, and three above. */
  lemma CountWidth(rangeBits: nat)
    requires 16 < rangeBits <= 64
    ensures LengthBits(RangeOctets(rangeBits), 1) == if rangeBits <= 32 then 2 else 3
  {
    var m := RangeOctets(rangeBits);
    assert Pow2(1) == 2 && Pow2(2) == 4 && Pow2(3) == 8;
    assert m > 2 && LengthBits(m, 1) == LengthBits(m, 2);
    assert m > 4 ==> LengthBits(m, 2) == LengthBits(m, 3);
  }

  lemma NoOctets(octets: seq<octet>)
    ensures OctetBits(octets[..0]) == []
  {
  }

  lemma OctetAdded(octets: seq<octet>, i: nat)
    requires i < |octets|
    ensures OctetBits(octets[..i + 1]) == OctetBits(octets[..i]) + ToBits(octets[i], 8)
  {
    hide OctetBits, ToBits;
    assert octets[..i + 1] == octets[..i] + [octets[i]];
    OctetBitsConcat(octets[..i], [octets[i]]);
    OneOctet(octets[i]);
  }

  lemma WidthIsSmall(rangeBits: nat)
    requires rangeBits <= 64
    ensures LengthBits(RangeOctets(rangeBits), 1) <= 3
  {
    var w := LengthBits(RangeOctets(rangeBits), 1);
    assert RangeOctets(rangeBits) <= 8 && Pow2(3) == 8;
    if w > 3 { Pow2Monotone(3, w - 1); }
  }

  /** The loop over `aper_put_length` at the end of `INTEGER_encode_aper`. */
  method PutUnconstrained(po: Writer, contents: seq<octet>) returns (ok: bool)
    modifies po
    ensures ok && po.bits == old(po.bits) + Unconstrained(contents, old(|po.bits|))
  {
    hide Unconstrained, OctetBits, LengthHeader, Padding, MaySave;
    var buf := 0;
    ghost var all := old(po.bits) + Unconstrained(contents, old(|po.bits|));
    assert contents[0..] == contents;
    while buf < |contents|
      invariant 0 <= buf <= |contents|
      invariant po.bits + Unconstrained(contents[buf..], |po.bits|) == all
    {
      ghost var rest, before := contents[buf..], po.bits;
      NextFragment(rest, before);
      var mayEncode := PutLength(po, |contents| - buf);
      ok := po.PutMany(contents[buf..buf + mayEncode], 8 * mayEncode);
      assert contents[buf..buf + mayEncode] == rest[..mayEncode];
      assert rest[mayEncode..] == contents[buf + mayEncode..];
      buf := buf + mayEncode;
    }
    assert contents[buf..] == [];
    NoFragment(po.bits);
    ok := true;
  }

  lemma NextFragment(rest: seq<octet>, before: seq<bit>)
    requires rest != []
    ensures var k := MaySave(|rest|);
            && k > 0
            && var head := Padding(|before|) + LengthHeader(|rest|);
            var after := before + head + OctetBits(rest[..k])[..8 * k];
            before + Unconstrained(rest, |before|) == after + Unconstrained(rest[k..], |after|)
  {
    hide *;
    var k := MaySave(|rest|);
    var head, octets := Padding(|before|) + LengthHeader(|rest|), OctetBits(rest[..k]);
    FirstFragment(rest, |before|);
    assert octets[..8 * k] == octets;
    Reassociate(before, head, octets, Unconstrained(rest[k..], |before| + |head| + 8 * k));
    assert |before + head + octets| == |before| + |head| + 8 * k;
  }

  lemma FirstFragment(rest: seq<octet>, off: nat)
    requires rest != []
    ensures var k, head := MaySave(|rest|), Padding(off) + LengthHeader(|rest|);
            Unconstrained(rest, off)
            == head + (OctetBits(rest[..k]) + Unconstrained(rest[k..], off + |head| + 8 * k))
  {
  }

  lemma NoFragment(before: seq<bit>)
    ensures before + Unconstrained([], |before|) == before
  {
  }

  /** `aper_put_length` without a range: how many octets may follow. */
  method PutLength(po: Writer, length: nat) returns (may: nat)
    modifies po
    ensures may == MaySave(length)
    ensures po.bits == old(po.bits) + (Padding(old(|po.bits|)) + LengthHeader(length))
  {
    hide LengthHeader, Padding;
    var ok := po.PutAlign();
    may := PutHeader(po, length);
  }

  /** `INTEGER_encode_aper` */
  method EncodeAper(st: IntegerT, ct: Option<Constraint>, unsigned: bool, po: Writer) returns (ok: bool)
    requires st.Valid()
    requires ct.Some? ==> ct.value.rangeBits <= 64
    modifies po
    ensures st.buf == null ==> !ok
    ensures st.buf != null ==>
              match Encoding(st.Contents(), ct, unsigned, old(|po.bits|))
              case None => !ok
              case Some(enc) => ok && po.bits == old(po.bits) + enc
  {
    hide ToBits, Unsigned, Signed, Unconstrained, RangeField;
    if st.size == 0 { return false; }
    var contents := st.buf[..st.size];
    if ct == None {
      ok := PutUnconstrained(po, contents);
      return ok;
    }
    var c := ct.value;
    var value: Option<int>;
    if unsigned {
      value := ToUintmax(st);
    } else {
      value := ToIntmax(st);
    }
    if value == None { return false; }
    var inext := c.Outside(value.value, unsigned);
    if c.extensible {
      PutBit(po, inext);
      if inext {
        ok := PutUnconstrained(po, contents);
        return ok;
      }
    } else if inext {
      return false;
    }
    if c.rangeBits >= 0 {
      ok := PutRange(po, c.rangeBits, ToUmax(value.value - c.lb));
    } else if c.lb != 0 {
      ok := false;
    } else {
      ok := PutUnconstrained(po, contents);
    }
  }

  /** The range branch of `INTEGER_decode_aper`: the offset, accumulated in a long. */
  method GetRange(pd: Reader, rangeBits: nat) returns (raw: Option<int>)
    requires pd.Valid() && rangeBits <= 64
    modifies pd
    ensures pd.Valid()
    ensures match ReadRange(rangeBits, pd.bits, old(pd.pos))
            case None => raw == None
            case Some(r) => raw == Some(ToImax(r.value)) && pd.pos == r.pos
  {
    hide FromBits;
    var v: Option<nat>;
    if rangeBits > 16 {
      raw := GetCounted(pd, rangeBits);
      return raw;
    } else if rangeBits < 8 {
      v := pd.GetFew(rangeBits);
    } else {
      var aligned := pd.GetAlign();
      if aligned == None { return None; }
      v := pd.GetFew(if rangeBits == 8 then 8 else 16);
    }
    if v == None { return None; }
    FewIsSmall(pd.bits, pd.pos - (if rangeBits < 8 then rangeBits else if rangeBits == 8 then 8 else 16), pd.pos);
    ToImaxFits(v.value);
    raw := Some(v.value);
  }

  lemma FewIsSmall(bits: seq<bit>, from: int, to: int)
    requires 0 <= from <= to <= |bits| && to - from <= 16
    ensures FromBits(bits[from..to]) < 65536
  {
    FromBitsBound(bits[from..to]);
    Pow2Monotone(to - from, 16);
    Pow2At8And16();
  }

  method GetCounted(pd: Reader, rangeBits: nat) returns (raw: Option<int>)
    requires pd.Valid() && 16 < rangeBits <= 64
    modifies pd
    ensures pd.Valid()
    ensures match ReadRange(rangeBits, pd.bits, old(pd.pos))
            case None => raw == None
            case Some(r) => raw == Some(ToImax(r.value)) && pd.pos == r.pos
  {
    hide FromBits, LengthBits, Pack, Unsigned;
    var width := LengthWidth(rangeBits);
    WidthIsSmall(rangeBits);
    var length := pd.GetFew(width);
    if length == None { return None; }
    CountIsSmall(pd.bits, pd.pos - width, pd.pos);
    var aligned := pd.GetAlign();
    if aligned != Some(0) { return None; }
    raw := GetOctets(pd, length.value + 1);
  }

  lemma CountIsSmall(bits: seq<bit>, from: int, to: int)
    requires 0 <= from <= to <= |bits| && to - from <= 3
    ensures FromBits(bits[from..to]) < 8
  {
    FromBitsBound(bits[from..to]);
    Pow2Monotone(to - from, 3);
    assert Pow2(3) == 8;
  }

  /** The `while(length--)` loop: octets added in at their place, with 64-bit wrap-around. */
  method GetOctets(pd: Reader, count: nat) returns (raw: Option<int>)
    requires pd.Valid() && count <= 8
    modifies pd
    ensures pd.Valid()
    ensures match Many(pd.bits, old(pd.pos), 8 * count)
            case None => raw == None
            case Some(r) => raw == Some(ToImax(Unsigned(r.value))) && pd.pos == r.pos
  {
    hide Pack, Unsigned, FromBits;
    ghost var start := pd.pos;
    var value, length := 0, count;
    ghost var octets: seq<octet> := [];
    assert pd.bits[start..start] == [] && Pack([]) == [] by { PackOctetBits([]); }
    assert Unsigned([]) == 0 by { UnsignedBound([]); assert Pow256(0) == 1; }
    while length > 0
      invariant 0 <= length <= count
      invariant pd.Valid() && pd.pos == start + 8 * (count - length)
      invariant octets == Pack(pd.bits[start..pd.pos]) && |octets| == count - length
      invariant value == ToImax(Unsigned(octets) * Pow256(length))
    {
      length := length - 1;
      var buf := pd.GetFew(8);
      if buf == None { return None; }
      ghost var next := pd.bits[pd.pos - 8..pd.pos];
      assert pd.bits[start..pd.pos] == pd.bits[start..pd.pos - 8] + next;
      AppendOctet(pd.bits[start..pd.pos - 8], next);
      ghost var more := octets + [buf.value as octet];
      Accumulates(value, octets, buf.value, length);
      octets := more;
      value := ToImax(value + buf.value * Pow256(length));
    }
    assert Pow256(0) == 1;
    raw := Some(value);
  }

  lemma AppendOctet(b: seq<bit>, next: seq<bit>)
    requires |b| % 8 == 0 && |next| == 8
    ensures FromBits(next) < 256
    ensures Pack(b + next) == Pack(b) + [FromBits(next) as octet]
  {
    FromBitsBound(next);
    Pow2At8And16();
    PackConcat(b, next);
    assert next + Zeros(0) == next;
  }

  lemma Accumulates(value: int, octets: seq<octet>, o: nat, length: nat)
    requires o < 256
    requires value == ToImax(Unsigned(octets) * Pow256(length + 1))
    ensures ToImax(value + o * Pow256(length))
         == ToImax(Unsigned(octets + [o as octet]) * Pow256(length))
  {
    hide *;
    var u, p := Unsigned(octets), Pow256(length);
    UnsignedSnoc(octets, o);
    PowerUp(length);
    AddedIn(u, p, o);
    WrapAdd(u * (256 * p), o * p);
    SamePattern(value + o * p, (u * 256 + o) * p);
  }

  lemma UnsignedSnoc(octets: seq<octet>, o: nat)
    requires o < 256
    ensures Unsigned(octets + [o as octet]) == Unsigned(octets) * 256 + o
  {
    assert (octets + [o as octet])[..|octets|] == octets;
  }

  lemma PowerUp(n: nat)
    ensures Pow256(n + 1) == 256 * Pow256(n)
  {
  }

  lemma AddedIn(u: int, p: int, o: int)
    ensures u * (256 * p) + o * p == (u * 256 + o) * p
  {
    Associate(u, 256, p);
    Distribute(p, u * 256, o);
  }

  /** `aper_get_length` without a range; None is its failure. */
  method GetLength(pd: Reader) returns (length: Option<(nat, bool)>)
    requires pd.Valid()
    modifies pd
    ensures pd.Valid()
    ensures match ReadLength(pd.bits, old(pd.pos))
            case None => length == None
            case Some(r) => length == Some(r.value) && pd.pos == r.pos
  {
    var aligned := pd.GetAlign();
    if aligned == None { return None; }
    length := GetHeader(pd);
  }

  /** The fragment loop of `INTEGER_decode_aper`. */
  method GetUnconstrained(pd: Reader) returns (contents: Option<seq<octet>>)
    requires pd.Valid()
    modifies pd
    ensures pd.Valid()
    ensures match ReadUnconstrained(pd.bits, old(pd.pos))
            case None => contents == None
            case Some(r) => contents == Some(r.value) && pd.pos == r.pos
  {
    hide ReadLength, Many, Prepend;
    var st: seq<octet> := [];
    var repeat := true;
    ghost var whole := ReadUnconstrained(pd.bits, pd.pos);
    PrependTwice<octet>([], [], whole);
    while repeat
      invariant pd.Valid()
      invariant whole == if repeat then Prepend(st, ReadUnconstrained(pd.bits, pd.pos)) else Some(Read(st, pd.pos))
      decreases repeat, |pd.bits| - pd.pos
    {
      ghost var rest := ReadUnconstrained(pd.bits, pd.pos);
      var length := GetLength(pd);
      if length == None {
        PrependNone(st);
        return None;
      }
      var octets := pd.GetMany(8 * length.value.0);
      if octets == None {
        PrependNone(st);
        return None;
      }
      PieceGathered(st, octets.value, ReadUnconstrained(pd.bits, pd.pos), pd.pos);
      st := st + octets.value;
      repeat := length.value.1;
    }
    contents := Some(st);
  }

  /** `INTEGER_decode_aper` into a structure that receives the new buffer. */
  method DecodeAper(st: IntegerT, ct: Option<Constraint>, unsigned: bool, pd: Reader) returns (ok: bool)
    requires pd.Valid()
    requires ct.Some? ==> ct.value.rangeBits <= 64 && FitsImax(ct.value.lb)
    modifies st, pd
    ensures pd.Valid() && st.Valid()
    ensures match Decoding(pd.bits, old(pd.pos), ct, unsigned)
            case None => !ok
            case Some(r) => ok && st.buf != null && st.Contents() == r.value && pd.pos == r.pos
  {
    hide FromBits, ReadRange, ReadUnconstrained, Signed;
    st.buf, st.size := null, 0;
    var c := ct;
    if ct.Some? && ct.value.extensible {
      var inext := pd.GetFew(1);
      if inext == None { return false; }
      if inext.value != 0 { c := None; }
    }
    if c.Some? && c.value.Flagged() {
      if c.value.rangeBits < 0 { return false; }
      var raw := GetRange(pd, c.value.rangeBits);
      if raw == None { return false; }
      StoreRebased(st, c.value, unsigned, raw.value);
      return true;
    }
    var octets := GetUnconstrained(pd);
    if octets == None { return false; }
    StoreContents(st, octets.value);
    if c.Some? && c.value.lb != 0 {
      var value := ToIntmax(st);
      if value == None { return false; }
      FromIntmax(st, ToImax(value.value + c.value.lb));
    }
    ok := true;
  }

  /** The low bound added in a long, and the sum stored by the conversion the width selects. */
  method StoreRebased(st: IntegerT, c: Constraint, unsigned: bool, raw: int)
    modifies st
    ensures st.Valid() && st.buf != null
    ensures forall offset: nat :: ToImax(offset) == raw ==> st.Contents() == Der(Rebased(c, offset, unsigned))
  {
    hide Der;
    var value := ToImax(raw + c.lb);
    if unsigned && c.rangeBits > 16 {
      FromUintmax(st, ToUmax(value));
    } else {
      FromIntmax(st, value);
    }
  }

  method StoreContents(st: IntegerT, contents: seq<octet>)
    modifies st
    ensures st.Valid() && st.buf != null && st.Contents() == contents
  {
    st.buf := new octet[|contents|](i requires 0 <= i < |contents| => contents[i]);
    st.size := |contents|;
  }
}
