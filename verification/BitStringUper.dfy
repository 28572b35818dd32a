/**
  BIT STRING in unaligned PER (ITU-T X.691): sizes within a constrained range,
  and the length-prefixed form in fragments of up to 64K bits.
 */
module BitStringUper {
  import opened Octets
  import opened BitStream
  import opened BitString
  import opened PerFields

  /** The size part of `asn_per_constraint_t`. */
  datatype SizeConstraint = SizeConstraint(extensible: bool, effectiveBits: int, lb: nat, ub: nat) {
    /** The size field covers the range. */
    predicate WellFormed() {
      effectiveBits >= 0 ==>
        && lb <= ub && ub - lb < Pow2(effectiveBits)
        && (effectiveBits == 0 ==> lb == ub)
    }
  }

  // ----- the length-prefixed form -------------------------------------------------

  /** Whether a closing zero length must follow the units let go. */
  predicate NeedEom(n: nat) {
    n >= FRAGMENT && n % FRAGMENT == 0 && n / FRAGMENT <= 4
  }

  /** The bits of a string of any size, in length-prefixed fragments. */
  function Fragments(b: seq<bit>): seq<bit>
    decreases |b|
  {
    var k := MaySave(|b|);
    LengthHeader(|b|) + (b[..k] +
      (if NeedEom(|b|) then LengthHeader(0)
       else if k < |b| then Fragments(b[k..])
       else []))
  }

  /** `uper_get_length`: a length and whether another fragment follows. */
  function ReadLength(bits: seq<bit>, pos: nat, effectiveBits: int, lb: nat): (r: Option<Read<(nat, bool)>>)
    requires pos <= |bits|
    ensures r.Some? ==> pos <= r.value.pos <= |bits|
    ensures r.Some? && effectiveBits < 0 ==> pos < r.value.pos
    ensures r.Some? && r.value.value.1 ==> pos < r.value.pos
  {
    if 0 <= effectiveBits <= 16 then
      var v :- Few(bits, pos, effectiveBits);
      Some(Read((v.value + lb, false), v.pos))
    else
      ReadHeader(bits, pos)
  }

  /** The bits of all fragments, as the decoding loop gathers them. */
  function ReadFragments(bits: seq<bit>, pos: nat, effectiveBits: int, lb: nat): (r: Option<Read<seq<bit>>>)
    requires pos <= |bits|
    ensures r.Some? ==> r.value.pos <= |bits|
    decreases |bits| - pos
  {
    var length :- ReadLength(bits, pos, effectiveBits, lb);
    var n := length.value.0;
    if n > |bits| - length.pos then None
    else
      var b, next := bits[length.pos..length.pos + n], length.pos + n;
      if !length.value.1 then Some(Read(b, next))
      else
        var rest :- ReadFragments(bits, next, effectiveBits, lb);
        Some(Read(b + rest.value, rest.pos))
  }

  lemma BitsAt(bits: seq<bit>, pos: nat, b: seq<bit>)
    requires At(bits, pos, b)
    ensures pos + |b| <= |bits| && bits[pos..pos + |b|] == b
  {
  }

  lemma LengthRoundTrip(n: nat, bits: seq<bit>, pos: nat)
    requires At(bits, pos, LengthHeader(n))
    ensures ReadLength(bits, pos, -1, 0)
         == Some(Read((MaySave(n), n >= FRAGMENT), pos + |LengthHeader(n)|))
  {
    hide At, LengthHeader, ReadHeader;
    HeaderRoundTrip(n, bits, pos);
  }

  /** A string of any size is read back through its fragments, closing length included. */
  lemma {:induction false} FragmentsRoundTrip(b: seq<bit>, bits: seq<bit>, pos: nat)
    requires At(bits, pos, Fragments(b))
    ensures ReadFragments(bits, pos, -1, 0) == Some(Read(b, pos + |Fragments(b)|))
    decreases |b|
  {
    hide At, LengthHeader, ReadLength, ReadFragments, MaySave, NeedEom;
    var k := MaySave(|b|);
    var rest := if NeedEom(|b|) then LengthHeader(0) else if k < |b| then Fragments(b[k..]) else [];
    var p := pos + |LengthHeader(|b|)|;
    AtSplit(bits, pos, LengthHeader(|b|), b[..k] + rest);
    LengthRoundTrip(|b|, bits, pos);
    AtSplit(bits, p, b[..k], rest);
    BitsAt(bits, p, b[..k]);
    AllSaved(|b|);
    FragmentRead(bits, pos, k, |b| >= FRAGMENT, p);
    if NeedEom(|b|) {
      LengthRoundTrip(0, bits, p + k);
      NothingMore(bits, p + k);
      assert b[..k] + [] == b;
    } else if k < |b| {
      FragmentsRoundTrip(b[k..], bits, p + k);
      assert b == b[..k] + b[k..];
    } else {
      assert b[..k] == b;
    }
  }

  lemma FragmentRead(bits: seq<bit>, pos: nat, n: nat, more: bool, p: nat)
    requires pos < p && p + n <= |bits| && ReadLength(bits, pos, -1, 0) == Some(Read((n, more), p))
    ensures ReadFragments(bits, pos, -1, 0)
         == if more then Prepend(bits[p..p + n], ReadFragments(bits, p + n, -1, 0))
            else Some(Read(bits[p..p + n], p + n))
  {
    hide ReadLength;
  }

  lemma NothingMore(bits: seq<bit>, pos: nat)
    requires pos <= |bits|
    requires ReadLength(bits, pos, -1, 0).Some? && ReadLength(bits, pos, -1, 0).value.value == (0, false)
    ensures ReadFragments(bits, pos, -1, 0) == Some(Read([], ReadLength(bits, pos, -1, 0).value.pos))
  {
    var p := ReadLength(bits, pos, -1, 0).value.pos;
    assert bits[p..p] == [];
  }

  lemma AllSaved(n: nat)
    ensures NeedEom(n) ==> MaySave(n) == n >= FRAGMENT
    ensures MaySave(0) == 0
    ensures n < FRAGMENT ==> MaySave(n) == n
    ensures n >= FRAGMENT && !NeedEom(n) ==> MaySave(n) < n
  {
  }

  /** A string in pieces of at most 65536 bits, each after its length; the last has fewer than 16384, perhaps none. */
  function Pieces(b: seq<bit>): seq<bit>
    decreases |b|
  {
    var k := FragmentSize(|b|);
    OctetBits(LengthOctets(|b|)) + (b[..k] + if |b| < 16384 then [] else Pieces(b[k..]))
  }

  /** What goes out for a string of any size. */
  lemma {:induction false} PiecesWritten(b: seq<bit>)
    ensures Fragments(b) == Pieces(b)
    decreases |b|
  {
    hide OctetBits, LengthHeader, LengthOctets;
    HeaderOctets(|b|);
    SizeIs(|b|);
    AllSaved(|b|);
    var k := MaySave(|b|);
    if NeedEom(|b|) {
      assert b[k..] == [] && b[..k] == b;
      NoPieces();
    } else if k < |b| {
      PiecesWritten(b[k..]);
    }
  }

  lemma NoPieces()
    ensures Pieces([]) == LengthHeader(0)
  {
    HeaderOctets(0);
  }

  // ----- whole values ------------------------------------------------------------------

  /** The bits up to the last one bit: the size the encoder works with. */
  function Payload(v: BitStr): (b: seq<bit>) {
    OctetBits(v.buf)[..Significant(OctetBits(v.buf))]
  }

  /** The bits `BIT_STRING_encode_uper` appends; None is its failure. */
  function Encoding(v: BitStr, c: SizeConstraint): Option<seq<bit>> {
    if !v.Valid() then None
    else
      var b := Payload(v);
      var inext := c.effectiveBits >= 0 && |b| > c.ub;
      if inext && !c.extensible then None
      else
        var ext := ExtensionBits(c.extensible, inext);
        if c.effectiveBits >= 0 && !inext then
          if c.effectiveBits >= 32 then None
          else
            var over := if |b| < c.lb then 0 else |b| - c.lb;
            Some(ext + (ToBits(over, c.effectiveBits) + Padded(b, c.lb)))
        else Some(ext + Fragments(b))
  }

  /** The bits followed by as many zeros as the least size needs. */
  function Padded(b: seq<bit>, lb: nat): (p: seq<bit>)
    ensures |p| == if |b| < lb then lb else |b|
  {
    b + Zeros(if |b| < lb then lb - |b| else 0)
  }

  /** What the decoder stores for n bits; a size that fills its octets leaves the old `bits_unused` in place. */
  function Stored(b: seq<bit>, old_unused: nat, fixed: bool): BitStr {
    BitStr(Pack(b), if fixed || |b| % 8 != 0 then (8 - |b| % 8) % 8 else old_unused)
  }

  /** What `BIT_STRING_decode_uper` leaves in a structure whose `bits_unused` was old_unused. */
  function Decoding(bits: seq<bit>, pos: nat, c: SizeConstraint, old_unused: nat): Option<Read<BitStr>>
    requires pos <= |bits|
  {
    var inext :- ReadExtension(bits, pos, c.extensible);
    var eb, lb := if inext.value != 0 then -1 else c.effectiveBits, if inext.value != 0 then 0 else c.lb;
    if eb == 0 then
      if c.ub > |bits| - inext.pos then None
      else Some(Read(Stored(bits[inext.pos..inext.pos + c.ub], old_unused, true), inext.pos + c.ub))
    else
      var b :- ReadFragments(bits, inext.pos, eb, lb);
      Some(Read(Stored(b.value, old_unused, false), b.pos))
  }

  /** The bits the decoder gets: the payload, padded when the size is constrained. */
  function Transmitted(v: BitStr, c: SizeConstraint): seq<bit> {
    if c.effectiveBits >= 0 && |Payload(v)| <= c.ub then Padded(Payload(v), c.lb) else Payload(v)
  }

  /** Fixed-size strings have `bits_unused` set anew whatever their size. */
  predicate FixedSize(v: BitStr, c: SizeConstraint) {
    c.effectiveBits == 0 && |Payload(v)| <= c.ub
  }

  /** One size field and the padded bits are read back. */
  lemma ConstrainedRoundTrip(b: seq<bit>, c: SizeConstraint, bits: seq<bit>, pos: nat)
    requires c.WellFormed() && 0 <= c.effectiveBits <= 16 && |b| <= c.ub
    requires var over := if |b| < c.lb then 0 else |b| - c.lb;
             At(bits, pos, ToBits(over, c.effectiveBits) + Padded(b, c.lb))
    ensures var end := pos + c.effectiveBits + |Padded(b, c.lb)|;
            && end <= |bits| && bits[pos + c.effectiveBits..end] == Padded(b, c.lb)
            && ReadFragments(bits, pos, c.effectiveBits, c.lb) == Some(Read(Padded(b, c.lb), end))
  {
    hide At, ToBits, Few, Pow2;
    var over := if |b| < c.lb then 0 else |b| - c.lb;
    AtSplit(bits, pos, ToBits(over, c.effectiveBits), Padded(b, c.lb));
    FewAt(bits, pos, over, c.effectiveBits);
    BitsAt(bits, pos + c.effectiveBits, Padded(b, c.lb));
  }

  /** Determinants cost at least an octet each, and that bounds what they let in. */
  lemma {:induction false} GatheredBound(bits: seq<bit>, pos: nat, eb: int, lb: nat)
    requires pos <= |bits| && !(0 <= eb <= 16)
    ensures var r := ReadFragments(bits, pos, eb, lb);
            r.Some? ==>
              var cost := r.value.pos - pos - |r.value.value|;
              8 <= cost && |r.value.value| <= 8192 * (cost - 8) + 16383
    decreases |bits| - pos
  {
    hide ReadHeader;
    HeaderBound(bits, pos);
    var length := ReadHeader(bits, pos);
    if length.Some? && length.value.value.1 && length.value.value.0 <= |bits| - length.value.pos {
      GatheredBound(bits, length.value.pos + length.value.value.0, eb, lb);
    }
  }

  lemma HeaderBound(bits: seq<bit>, pos: nat)
    requires pos <= |bits|
    ensures var r := ReadHeader(bits, pos);
            r.Some? ==>
              if r.value.value.1 then r.value.value.0 <= 4 * FRAGMENT && r.value.pos == pos + 8
              else r.value.value.0 < FRAGMENT && r.value.pos >= pos + 8
  {
    hide FromBits;
    Pow2At8And16();
    if pos + 16 <= |bits| { FromBitsBound(bits[pos + 8..pos + 16]); }
  }

  lemma {:induction false} ShrBounds(v: nat, k: nat)
    ensures Shr(v, k) * Pow2(k) <= v < (Shr(v, k) + 1) * Pow2(k)
  {
    if k > 0 {
      ShrBounds(v / 2, k - 1);
      Twice(Shr(v, k), Pow2(k - 1));
      Twice(Shr(v, k) + 1, Pow2(k - 1));
    }
  }

  lemma Twice(f: nat, p: nat)
    ensures f * (2 * p) == 2 * (f * p)
  {
  }

  /** The first octet of a wider field is read as a determinant. */
  lemma TopOctet(v: nat, k: nat, bits: seq<bit>, pos: nat)
    requires v < Pow2(8 + k) && At(bits, pos, ToBits(v, 8 + k))
    ensures Shr(v, k) * Pow2(k) <= v
    ensures Few(bits, pos, 8) == Some(Read(Shr(v, k), pos + 8))
  {
    hide Few, At, ToBits;
    ShrBounds(v, k);
    Pow2At8And16();
    Pow2Times256(k);
    if Shr(v, k) >= 256 { MulMonotone(256, Shr(v, k), Pow2(k)); }
    ToBitsSplit(v, 8, k);
    AtSplit(bits, pos, ToBits(Shr(v, k), 8), ToBits(v, k));
    FewAt(bits, pos, Shr(v, k), 8);
  }

  lemma Pow2Times256(k: nat)
    ensures Pow2(8 + k) == 256 * Pow2(k)
  {
    assert Pow2(k + 2) == 4 * Pow2(k);
    assert Pow2(k + 4) == 4 * Pow2(k + 2);
    assert Pow2(k + 6) == 4 * Pow2(k + 4);
    assert Pow2(k + 8) == 4 * Pow2(k + 6);
  }

  lemma {:induction false} WidePow2(k: nat)
    requires k >= 9
    ensures Pow2(k) >= 512 && 8192 * k + 16383 < 193 * Pow2(k)
  {
    if k == 9 {
      Pow2At8And16();
    } else {
      WidePow2(k - 1);
    }
  }

  /** A size field of more than 16 bits, read as determinants, lets in less than its size and what was saved on it. */
  lemma WideField(v: nat, eb: int, lb: nat, bits: seq<bit>, pos: nat)
    requires 17 <= eb && v < Pow2(eb) && At(bits, pos, ToBits(v, eb))
    ensures var r := ReadFragments(bits, pos, eb, lb);
            r.Some? ==>
              var cost := r.value.pos - pos - |r.value.value|;
              (v == 0 ==> cost == 8) && (cost <= eb ==> |r.value.value| < v + eb - cost)
  {
    hide Few, At, ToBits, Shr, Pow2, ReadFragments;
    var k := eb - 8;
    var f, p := Shr(v, k), Pow2(k);
    TopOctet(v, k, bits, pos);
    WidePow2(k);
    if f < 128 {
      ShortRead(bits, pos, eb, lb, f);
      MulMonotone(1, p, f);
      assert f * p == p * f >= f;
    } else {
      GatheredBound(bits, pos, eb, lb);
      if f < 193 {
        ShortRead(bits, pos, eb, lb, f);
        MulMonotone(128, f, p);
      } else {
        MulMonotone(193, f, p);
      }
    }
  }

  /** What a determinant below 193 lets in. */
  lemma ShortRead(bits: seq<bit>, pos: nat, eb: int, lb: nat, f: nat)
    requires pos <= |bits| && eb > 16 && f < 193 && Few(bits, pos, 8) == Some(Read(f, pos + 8))
    ensures var r := ReadFragments(bits, pos, eb, lb);
            r.Some? ==>
              if f < 128 then |r.value.value| == f && r.value.pos == pos + 8 + f
              else |r.value.value| < FRAGMENT
  {
    HeaderBound(bits, pos);
  }

  lemma PackedBit(b: seq<bit>, n: nat)
    requires n < 8 * |Pack(b)|
    ensures |b| <= 8 * |Pack(b)| && OctetBits(Pack(b))[n] == if n < |b| then b[n] else 0
  {
    hide Pack, OctetBits;
    OctetBitsOfPack(b);
  }

  /** Octets that end in a one are not those of a shorter string. */
  lemma OneBeyond(x: seq<bit>, t: seq<bit>)
    requires |x| < |t| && t[|t| - 1] == 1
    ensures Pack(x) != Pack(t)
  {
    hide Pack, OctetBits;
    OctetBitsOfPack(t);
    PackedBit(t, |t| - 1);
    if |Pack(x)| == |Pack(t)| { PackedBit(x, |t| - 1); }
  }

  /** A size field of more than 16 bits is written but not read: what comes back is never the value sent. */
  lemma WideSizeFails(b: seq<bit>, c: SizeConstraint, bits: seq<bit>, pos: nat, old_unused: nat)
    requires c.WellFormed() && c.effectiveBits > 16 && |b| <= c.ub && (b != [] ==> b[|b| - 1] == 1)
    requires var over := if |b| < c.lb then 0 else |b| - c.lb;
             At(bits, pos, ToBits(over, c.effectiveBits) + Padded(b, c.lb))
    ensures var r, sent := ReadFragments(bits, pos, c.effectiveBits, c.lb), Padded(b, c.lb);
            r.Some? && r.value.pos == pos + c.effectiveBits + |sent| ==>
              Stored(r.value.value, old_unused, false) != Stored(sent, old_unused, false)
  {
    hide At, ToBits, Pow2, ReadFragments, Pack;
    var over := if |b| < c.lb then 0 else |b| - c.lb;
    var sent := Padded(b, c.lb);
    AtSplit(bits, pos, ToBits(over, c.effectiveBits), sent);
    BitsAt(bits, pos, ToBits(over, c.effectiveBits));
    WideField(over, c.effectiveBits, c.lb, bits, pos);
    var r := ReadFragments(bits, pos, c.effectiveBits, c.lb);
    if r.Some? && r.value.pos == pos + c.effectiveBits + |sent| {
      assert over > 0 && sent == b;
      OneBeyond(r.value.value, b);
    }
  }

  /** A size outside the root, or one whose field has at most 16 bits, is read as it was written. */
  predicate SizeIsRead(v: BitStr, c: SizeConstraint) {
    c.effectiveBits <= 16 || |Payload(v)| > c.ub
  }

  /**
    An encoded value decodes to exactly the transmitted bits and consumes exactly what was written,
    in whatever stream it stands, if and only if its size field is read as it was written.
   */
  lemma RoundTrip(v: BitStr, c: SizeConstraint, bits: seq<bit>, pos: nat, old_unused: nat)
    requires v.Valid() && c.WellFormed() && Encoding(v, c).Some?
    requires At(bits, pos, Encoding(v, c).value)
    ensures (Decoding(bits, pos, c, old_unused)
             == Some(Read(Stored(Transmitted(v, c), old_unused, FixedSize(v, c)), pos + |Encoding(v, c).value|)))
            == SizeIsRead(v, c)
  {
    hide ToBits, Fragments, ReadFragments, Stored, Padded, Pow2, Payload;
    var b := Payload(v);
    var inext := c.effectiveBits >= 0 && |b| > c.ub;
    var ext := ExtensionBits(c.extensible, inext);
    if c.effectiveBits >= 0 && !inext {
      var over := if |b| < c.lb then 0 else |b| - c.lb;
      AtSplit(bits, pos, ext, ToBits(over, c.effectiveBits) + Padded(b, c.lb));
      ExtensionRoundTrip(c.extensible, inext, bits, pos);
      PaddedLength(b, c.lb);
      if c.effectiveBits <= 16 {
        ConstrainedRoundTrip(b, c, bits, pos + |ext|);
      } else {
        PayloadEnds(v);
        WideSizeFails(b, c, bits, pos + |ext|, old_unused);
      }
    } else {
      AtSplit(bits, pos, ext, Fragments(b));
      ExtensionRoundTrip(c.extensible, inext, bits, pos);
      FragmentsRoundTrip(b, bits, pos + |ext|);
      UnconstrainedLb(bits, pos + |ext|, c);
    }
  }

  lemma PayloadEnds(v: BitStr)
    ensures var b := Payload(v); b != [] ==> b[|b| - 1] == 1
  {
    hide OctetBits;
  }

  lemma PaddedLength(b: seq<bit>, lb: nat)
    ensures |Padded(b, lb)| == if |b| < lb then lb else |b|
  {
  }

  /** Without a constrained size the lower bound plays no part in reading. */
  lemma {:induction false} UnconstrainedLb(bits: seq<bit>, pos: nat, c: SizeConstraint)
    requires pos <= |bits|
    ensures c.effectiveBits < 0 ==>
              ReadFragments(bits, pos, c.effectiveBits, c.lb) == ReadFragments(bits, pos, -1, 0)
    decreases |bits| - pos
  {
    if c.effectiveBits < 0 {
      var length := ReadLength(bits, pos, -1, 0);
      if length.Some? && length.value.value.1 && length.value.value.0 <= |bits| - length.value.pos {
        UnconstrainedLb(bits, length.value.pos + length.value.value.0, c);
      }
    }
  }

  /**
    Encoding succeeds exactly when the string without trailing zeros is short enough for its
    constraint, or that is extensible; and a constrained size has no field of 32 bits or more.
   */
  lemma EncodingSucceeds(v: BitStr, c: SizeConstraint)
    requires v.Valid() && c.WellFormed()
    ensures Encoding(v, c).Some? <==>
              || c.effectiveBits < 0
              || (if |Payload(v)| <= c.ub then c.effectiveBits < 32 else c.extensible)
  {
  }

  /** A constrained, non-extensible size costs its field and the larger of the string and the least size. */
  lemma EncodedSize(v: BitStr, c: SizeConstraint)
    requires v.Valid() && c.WellFormed() && !c.extensible && 0 <= c.effectiveBits < 32
    requires |Payload(v)| <= c.ub
    ensures Encoding(v, c).Some?
    ensures |Encoding(v, c).value|
         == c.effectiveBits + if |Payload(v)| < c.lb then c.lb else |Payload(v)|
  {
  }

  /**
    What goes out for a value the encoder takes: the extension bit if there is one; then, with a size
    in the root, the size sent less the least one in effective_bits, and the string without trailing
    zeros, filled up with zeros to the least size; otherwise that string in pieces.
   */
  lemma EncodedForm(v: BitStr, c: SizeConstraint, b: seq<bit>, zeros: seq<bit>)
    requires v.Valid() && c.WellFormed() && Encoding(v, c).Some?
    requires b + zeros == OctetBits(v.buf) && (b != [] ==> b[|b| - 1] == 1)
    requires forall i :: 0 <= i < |zeros| ==> zeros[i] == 0
    ensures var flag: seq<bit> := if !c.extensible then [] else if c.effectiveBits >= 0 && |b| > c.ub then [1] else [0];
            var size, fill := if |b| > c.lb then |b| - c.lb else 0, if |b| > c.lb then 0 else c.lb - |b|;
            Encoding(v, c).value
            == flag + if c.effectiveBits < 0 || |b| > c.ub then Pieces(b)
                      else ToBits(size, c.effectiveBits) + (b + Zeros(fill))
  {
    hide *;
    PayloadIs(v, b, zeros);
    PiecesWritten(b);
    EncodingCases(v, b, c);
  }

  lemma EncodingCases(v: BitStr, b: seq<bit>, c: SizeConstraint)
    requires v.Valid() && c.WellFormed() && Encoding(v, c).Some? && Payload(v) == b
    ensures var flag: seq<bit> := if !c.extensible then [] else if c.effectiveBits >= 0 && |b| > c.ub then [1] else [0];
            var size, fill := if |b| > c.lb then |b| - c.lb else 0, if |b| > c.lb then 0 else c.lb - |b|;
            Encoding(v, c).value
            == flag + if c.effectiveBits < 0 || |b| > c.ub then Fragments(b)
                      else ToBits(size, c.effectiveBits) + (b + Zeros(fill))
  {
    hide *;
    var flag: seq<bit> := if !c.extensible then [] else if c.effectiveBits >= 0 && |b| > c.ub then [1] else [0];
    var fill := if |b| > c.lb then 0 else c.lb - |b|;
    var inext := c.effectiveBits >= 0 && |b| > c.ub;
    EncodingIs(v, b, c);
    PaddedIs(b, c.lb);
    FlagIs(c.extensible, inext);
    assert ExtensionBits(c.extensible, inext) == flag && Padded(b, c.lb) == b + Zeros(fill);
  }

  lemma EncodingIs(v: BitStr, b: seq<bit>, c: SizeConstraint)
    requires v.Valid() && Encoding(v, c).Some? && Payload(v) == b
    ensures var inext := c.effectiveBits >= 0 && |b| > c.ub;
            Encoding(v, c).value
            == ExtensionBits(c.extensible, inext)
               + if c.effectiveBits < 0 || |b| > c.ub then Fragments(b)
                 else ToBits(if |b| > c.lb then |b| - c.lb else 0, c.effectiveBits) + Padded(b, c.lb)
  {
    hide ToBits, Payload, Fragments, Padded, ExtensionBits;
    if c.effectiveBits < 0 {
      assert Encoding(v, c) == Some(ExtensionBits(c.extensible, false) + Fragments(b));
    } else if |b| > c.ub {
      assert Encoding(v, c) == Some(ExtensionBits(c.extensible, true) + Fragments(b));
    }
  }

  lemma PaddedIs(b: seq<bit>, lb: nat)
    ensures Padded(b, lb) == b + Zeros(if |b| > lb then 0 else lb - |b|)
  {
    hide Zeros;
  }

  lemma FlagIs(extensible: bool, outside: bool)
    ensures ExtensionBits(extensible, outside) == if !extensible then [] else if outside then [1] else [0]
  {
  }

  lemma PayloadIs(v: BitStr, b: seq<bit>, zeros: seq<bit>)
    requires b + zeros == OctetBits(v.buf) && (b != [] ==> b[|b| - 1] == 1)
    requires forall i :: 0 <= i < |zeros| ==> zeros[i] == 0
    ensures Payload(v) == b
  {
    hide OctetBits, Significant;
    SignificantIs(b, zeros);
  }

  /** The payload ends at the last one bit. */
  lemma {:induction false} SignificantIs(b: seq<bit>, zeros: seq<bit>)
    requires b != [] ==> b[|b| - 1] == 1
    requires forall i :: 0 <= i < |zeros| ==> zeros[i] == 0
    ensures Significant(b + zeros) == |b| && (b + zeros)[..|b|] == b
  {
    if zeros == [] {
      assert b + zeros == b;
    } else {
      var n := |zeros| - 1;
      SignificantIs(b, zeros[..n]);
      assert (b + zeros)[..|b| + n] == b + zeros[..n];
    }
  }

  // ----- what decoding preserves -----------------------------------------------------------

  /** The value stored is well-formed and stands for the bits given, exactly unless a stale count remains. */
  lemma StoredIsExact(b: seq<bit>, old_unused: nat, fixed: bool)
    ensures var r := Stored(b, old_unused, fixed);
            (r.Valid() && r.Bits() == b && r.Clean()) == (fixed || |b| % 8 != 0 || old_unused == 0)
  {
    hide Pack, OctetBits;
    var r := Stored(b, old_unused, fixed);
    OctetBitsOfPack(b);
    var z := (8 - |b| % 8) % 8;
    assert OctetBits(r.buf) == b + Zeros(z);
    assert (b + Zeros(z))[..|b|] == b;
    PackEmpty(b);
  }

  lemma PackEmpty(b: seq<bit>)
    ensures Pack(b) == [] <==> b == []
    ensures |Pack(b)| == (|b| + 7) / 8
  {
  }

  lemma {:induction false} AfterSignificant(b: seq<bit>)
    ensures b == b[..Significant(b)] + Zeros(|b| - Significant(b))
  {
    if b != [] && b[|b| - 1] == 0 {
      var n := |b| - 1;
      AfterSignificant(b[..n]);
      assert b == b[..n] + [0];
      assert b[..n][..Significant(b)] == b[..Significant(b)];
      assert Zeros(n + 1 - Significant(b)) == Zeros(n - Significant(b)) + [0];
    } else {
      assert b[..|b|] == b;
    }
  }

  /**
    Into a fresh structure, every value decodes to one that `BIT_STRING_compare`
    calls equal to it.
   */
  lemma DecodedComparesEqual(v: BitStr, c: SizeConstraint)
    requires v.Valid()
    ensures SameBits(Stored(Transmitted(v, c), 0, FixedSize(v, c)).buf, v.buf)
  {
    hide Pack, OctetBits, Significant;
    var b := Transmitted(v, c);
    var r := Pack(b);
    OctetBitsOfPack(b);
    AfterSignificant(OctetBits(v.buf));
    PayloadPadded(v, c);
    forall i: nat ensures BitAt(r, i) == BitAt(v.buf, i) {
      assert OctetBits(v.buf) == Payload(v) + Zeros(8 * |v.buf| - |Payload(v)|);
    }
  }

  lemma PayloadPadded(v: BitStr, c: SizeConstraint)
    ensures |Payload(v)| <= |Transmitted(v, c)|
    ensures Transmitted(v, c) == Payload(v) + Zeros(|Transmitted(v, c)| - |Payload(v)|)
  {
    hide Payload;
    assert Payload(v) + Zeros(0) == Payload(v);
  }

  // ----- the encoder and the decoder --------------------------------------------------------

  /** `uper_put_length`: the units that may follow, and whether a closing length is due. */
  method PutLength(po: Writer, length: nat) returns (may: nat, needEom: bool)
    modifies po
    ensures may == MaySave(length) && needEom == NeedEom(length)
    ensures po.bits == old(po.bits) + LengthHeader(length)
  {
    hide LengthHeader;
    may := PutHeader(po, length);
    needEom := length >= FRAGMENT && length % FRAGMENT == 0 && length / FRAGMENT <= 4;
  }

  /** The zero trailer, 128 bits at a time. */
  method PutTrailer(po: Writer, count: nat)
    modifies po
    ensures po.bits == old(po.bits) + Zeros(count)
  {
    hide OctetBits;
    var zeros: seq<octet> := seq(16, _ => 0);
    ZeroOctets(16);
    var left := count;
    while left > 0
      invariant 0 <= left <= count
      invariant po.bits == old(po.bits) + Zeros(count - left)
    {
      var n := if left > 128 then 128 else left;
      var ok := po.PutMany(zeros, n);
      assert OctetBits(zeros)[..n] == Zeros(n);
      left := left - n;
    }
  }

  lemma {:induction false} ZeroOctets(n: nat)
    ensures OctetBits(seq(n, _ => 0)) == Zeros(8 * n)
  {
    if n > 0 {
      ZeroOctets(n - 1);
      assert seq(n, _ => 0)[1..] == seq(n - 1, _ => 0);
      ToBitsOfZero(8);
    }
  }

  /** The fragment loop of `BIT_STRING_encode_uper` over the first `size` bits of the buffer. */
  method PutFragments(po: Writer, buf: seq<octet>, size: nat)
    requires size <= 8 * |buf|
    modifies po
    ensures po.bits == old(po.bits) + Fragments(OctetBits(buf)[..size])
  {
    hide OctetBits, LengthHeader, MaySave, NeedEom, Fragments;
    var p, left := 0, size;
    ghost var rest := OctetBits(buf)[..size];
    ghost var all := po.bits + Fragments(rest);
    var more := true;
    while more
      invariant more ==> 8 * p + left == size && |rest| == left && rest == OctetBits(buf)[8 * p..size]
      invariant if more then po.bits + Fragments(rest) == all else po.bits == all
      decreases more, left
    {
      ghost var before := po.bits;
      var maySave, needEom := PutLength(po, left);
      SavedPart(left);
      BufferSlice(buf, p, maySave, size, rest);
      var ok := po.PutMany(buf[p..], maySave);
      if needEom {
        var may, eom := PutLength(po, 0);
      }
      FragmentStep(before, rest);
      rest := rest[maySave..];
      p, left := p + maySave / 8, left - maySave;
      more := left > 0;
    }
  }

  /** What is let go is all, or a multiple of 8 bits with more to follow. */
  lemma SavedPart(n: nat)
    ensures MaySave(n) < n ==> MaySave(n) % 8 == 0 && MaySave(n) > 0 && !NeedEom(n)
  {
  }

  lemma FragmentStep(before: seq<bit>, rest: seq<bit>)
    ensures var k := MaySave(|rest|);
            before + Fragments(rest)
            == before + LengthHeader(|rest|) + rest[..k]
               + if NeedEom(|rest|) then LengthHeader(0) else if k < |rest| then Fragments(rest[k..]) else []
  {
    hide LengthHeader, MaySave, NeedEom;
    var k := MaySave(|rest|);
    var tail := if NeedEom(|rest|) then LengthHeader(0) else if k < |rest| then Fragments(rest[k..]) else [];
    Reassociate(before, LengthHeader(|rest|), rest[..k], tail);
  }

  lemma BufferSlice(buf: seq<octet>, p: nat, n: nat, size: nat, rest: seq<bit>)
    requires 8 * p + n <= size <= 8 * |buf| && rest == OctetBits(buf)[8 * p..size]
    ensures OctetBits(buf[p..])[..n] == rest[..n]
    ensures rest[n..] == OctetBits(buf)[8 * p + n..size]
  {
    hide *;
    var s, tail, k := OctetBits(buf), OctetBits(buf[p..]), 8 * p;
    DropBits(buf, p);
    Slices(s, tail, rest, k, n, size);
  }

  lemma DropBits(buf: seq<octet>, p: nat)
    requires p <= |buf|
    ensures OctetBits(buf[p..]) == OctetBits(buf)[8 * p..]
  {
    hide *;
    assert buf == buf[..p] + buf[p..];
    OctetBitsConcat(buf[..p], buf[p..]);
  }

  lemma Slices(s: seq<bit>, tail: seq<bit>, rest: seq<bit>, k: nat, n: nat, size: nat)
    requires k + n <= size <= |s| && tail == s[k..] && rest == s[k..size]
    ensures tail[..n] == rest[..n]
    ensures rest[n..] == s[k + n..size]
  {
  }

  /** The size field, the bits and the zero trailer. */
  method PutConstrained(po: Writer, buf: seq<octet>, size: nat, c: SizeConstraint) returns (ok: bool)
    requires size <= 8 * |buf| && c.effectiveBits >= 0
    modifies po
    ensures ok == (c.effectiveBits < 32)
    ensures ok ==> po.bits == old(po.bits)
                     + (ToBits(if size < c.lb then 0 else size - c.lb, c.effectiveBits)
                        + Padded(OctetBits(buf)[..size], c.lb))
  {
    hide OctetBits, ToBits;
    ok := po.PutFew(if size < c.lb then 0 else size - c.lb, c.effectiveBits);
    if !ok { return false; }
    ok := po.PutMany(buf, size);
    PutTrailer(po, if size < c.lb then c.lb - size else 0);
  }

  /** `BIT_STRING_encode_uper` */
  method EncodeUper(v: BitStr, c: SizeConstraint, po: Writer) returns (ok: bool)
    modifies po
    ensures match Encoding(v, c)
            case None => !ok
            case Some(enc) => ok && po.bits == old(po.bits) + enc
  {
    hide OctetBits, Fragments, ToBits, Significant, Padded;
    if (|v.buf| == 0 && v.unused != 0) || v.unused > 7 { return false; }
    var st := Compactify(v);
    var size := 8 * |st.buf| - st.unused;
    assert st.buf <= v.buf;
    BufferPrefix(v.buf, st.buf, size);
    var inext := false;
    if c.effectiveBits >= 0 && size > c.ub {
      if !c.extensible { return false; }
      inext := true;
    }
    if c.extensible { PutBit(po, inext); }
    if c.effectiveBits >= 0 && !inext {
      ok := PutConstrained(po, st.buf, size, c);
      return ok;
    }
    PutFragments(po, st.buf, size);
    ok := true;
  }

  lemma BufferPrefix(buf: seq<octet>, head: seq<octet>, size: nat)
    requires head <= buf && size <= 8 * |head|
    ensures OctetBits(head)[..size] == OctetBits(buf)[..size]
  {
    hide OctetBits;
    OctetBitsConcat(head, buf[|head|..]);
    assert buf == head + buf[|head|..];
  }

  /** `uper_get_length`; None is its failure. */
  method GetLength(pd: Reader, effectiveBits: int, lb: nat) returns (length: Option<(nat, bool)>)
    requires pd.Valid()
    modifies pd
    ensures pd.Valid()
    ensures match ReadLength(pd.bits, old(pd.pos), effectiveBits, lb)
            case None => length == None
            case Some(r) => length == Some(r.value) && pd.pos == r.pos
  {
    hide FromBits;
    if 0 <= effectiveBits <= 16 {
      var v := pd.GetFew(effectiveBits);
      if v == None { return None; }
      return Some((v.value + lb, false));
    }
    length := GetHeader(pd);
  }

  /** `BIT_STRING_t` as the decoder updates it. */
  class BitStringT {
    var buf: seq<octet>
    var bitsUnused: nat

    constructor ()
      ensures buf == [] && bitsUnused == 0
    {
      buf, bitsUnused := [], 0;
    }
  }

  /** `BIT_STRING_decode_uper`; on failure the structure is left in an unspecified state. */
  method DecodeUper(st: BitStringT, c: SizeConstraint, pd: Reader) returns (ok: bool)
    requires pd.Valid()
    modifies st, pd
    ensures pd.Valid()
    ensures match Decoding(pd.bits, old(pd.pos), c, old(st.bitsUnused))
            case None => !ok
            case Some(r) => ok && BitStr(st.buf, st.bitsUnused) == r.value && pd.pos == r.pos
  {
    hide FromBits, ReadFragments, Pack;
    var eb, lb := c.effectiveBits, c.lb;
    if c.extensible {
      var inext := pd.GetFew(1);
      if inext == None { return false; }
      if inext.value != 0 { eb, lb := -1, 0; }
    }
    if eb == 0 {
      var octets := pd.GetMany(c.ub);
      if octets == None { return false; }
      st.buf, st.bitsUnused := octets.value, (8 - c.ub % 8) % 8;
      return true;
    }
    ok := GetFragments(st, eb, lb, pd);
  }

  /** The decoding loop: lengths and bits until no fragment follows. */
  method GetFragments(st: BitStringT, eb: int, lb: nat, pd: Reader) returns (ok: bool)
    requires pd.Valid()
    modifies st, pd
    ensures pd.Valid()
    ensures match ReadFragments(pd.bits, old(pd.pos), eb, lb)
            case None => !ok
            case Some(r) =>
              && ok && pd.pos == r.pos
              && BitStr(st.buf, st.bitsUnused) == Stored(r.value, old(st.bitsUnused), false)
  {
    hide ReadLength, Pack, Prepend, Stored;
    st.buf := [];
    var repeat := true;
    ghost var whole, sofar: seq<bit>, unused := ReadFragments(pd.bits, pd.pos, eb, lb), [], st.bitsUnused;
    PackNothing();
    PrependTwice<bit>([], [], whole);
    NothingStored(unused);
    while repeat
      invariant pd.Valid()
      invariant BitStr(st.buf, st.bitsUnused) == Stored(sofar, unused, false)
      invariant repeat ==> |sofar| % 8 == 0
      invariant whole == if repeat then Prepend(sofar, ReadFragments(pd.bits, pd.pos, eb, lb)) else Some(Read(sofar, pd.pos))
      decreases repeat, |pd.bits| - pd.pos
    {
      FragmentLength(pd.bits, pd.pos, eb, lb);
      var length := GetLength(pd, eb, lb);
      if length == None {
        PrependNone(sofar);
        return false;
      }
      var bits := length.value.0;
      var octets := pd.GetMany(bits);
      if octets == None {
        PrependNone(sofar);
        return false;
      }
      ghost var b := pd.bits[pd.pos - bits..pd.pos];
      StoredMore(sofar, b, unused);
      PieceGathered(sofar, b, ReadFragments(pd.bits, pd.pos, eb, lb), pd.pos);
      if bits % 8 != 0 { st.bitsUnused := 8 - bits % 8; }
      st.buf := st.buf + octets.value;
      sofar := sofar + b;
      repeat := length.value.1;
    }
    ok := true;
  }

  lemma NothingStored(unused: nat)
    ensures Stored([], unused, false) == BitStr([], unused)
  {
  }

  /** Another fragment appends its octets and sets `bits_unused` when it ends inside one. */
  lemma StoredMore(sofar: seq<bit>, b: seq<bit>, unused: nat)
    requires |sofar| % 8 == 0
    ensures Stored(sofar + b, unused, false)
         == BitStr(Stored(sofar, unused, false).buf + Pack(b),
                   if |b| % 8 != 0 then 8 - |b| % 8 else Stored(sofar, unused, false).unused)
  {
    hide *;
    PackConcat(sofar, b);
    StoredIs(sofar, unused);
    StoredIs(sofar + b, unused);
    WholeOctets(|sofar|, |b|);
  }

  lemma StoredIs(b: seq<bit>, unused: nat)
    ensures Stored(b, unused, false) == BitStr(Pack(b), if |b| % 8 != 0 then 8 - |b| % 8 else unused)
  {
    hide Pack;
    var k := |b| % 8;
    assert 0 < k < 8 ==> (8 - k) % 8 == 8 - k;
  }

  lemma WholeOctets(n: nat, more: nat)
    requires n % 8 == 0
    ensures (n + more) % 8 == more % 8
  {
    assert n == 8 * (n / 8);
  }

  lemma FragmentLength(bits: seq<bit>, pos: nat, eb: int, lb: nat)
    requires pos <= |bits|
    ensures ReadLength(bits, pos, eb, lb).Some? && ReadLength(bits, pos, eb, lb).value.value.1 ==>
              ReadLength(bits, pos, eb, lb).value.value.0 % 8 == 0
  {
  }
}
