/**
  Fields that several PER encodings share (ITU-T X.691): length determinants for
  strings of any size, and the bit that says a value lies outside the extension root.
 */
module PerFields {
  import opened Octets
  import opened BitStream

  const FRAGMENT: nat := 16384

  /** How many of n units `uper_put_length` lets go next. */
  function MaySave(n: nat): (k: nat)
    ensures k <= n && (n > 0 ==> k > 0)
    ensures n >= FRAGMENT ==> k % FRAGMENT == 0
  {
    if n < FRAGMENT then n else if n / FRAGMENT > 4 then 4 * FRAGMENT else n / FRAGMENT * FRAGMENT
  }

  /** The length determinant written for n units. */
  function LengthHeader(n: nat): (h: seq<bit>)
    ensures |h| % 8 == 0
  {
    if n <= 127 then ToBits(n, 8)
    else if n < FRAGMENT then ToBits(n + 0x8000, 16)
    else ToBits(0xC0 + MaySave(n) / FRAGMENT, 8)
  }

  /** A length determinant read: the units that follow, and whether another determinant comes after them. */
  function ReadHeader(bits: seq<bit>, pos: nat): (r: Option<Read<(nat, bool)>>)
    requires pos <= |bits|
    ensures r.Some? ==> pos < r.value.pos <= |bits|
  {
    var v :- Few(bits, pos, 8);
    if v.value < 128 then Some(Read((v.value, false), v.pos))
    else if v.value < 192 then
      var low :- Few(bits, v.pos, 8);
      Some(Read(((v.value - 128) * 256 + low.value, false), low.pos))
    else if 193 <= v.value <= 196 then Some(Read(((v.value - 192) * FRAGMENT, true), v.pos))
    else None
  }

  /** Whatever the number of units, its determinant is read back as the units let go. */
  lemma HeaderRoundTrip(n: nat, bits: seq<bit>, pos: nat)
    requires At(bits, pos, LengthHeader(n))
    ensures ReadHeader(bits, pos) == Some(Read((MaySave(n), n >= FRAGMENT), pos + |LengthHeader(n)|))
  {
    hide At, ToBits, Few;
    Pow2At8And16();
    if n <= 127 {
      FewAt(bits, pos, n, 8);
    } else if n < FRAGMENT {
      var hi, lo := 128 + n / 256, n % 256;
      ShlBy8(hi);
      ToBitsJoin(hi, lo, 8, 8);
      AtSplit(bits, pos, ToBits(hi, 8), ToBits(lo, 8));
      FewAt(bits, pos, hi, 8);
      FewAt(bits, pos + 8, lo, 8);
    } else {
      FewAt(bits, pos, 0xC0 + MaySave(n) / FRAGMENT, 8);
    }
  }

  /** The length in front of n units, and of the first of them when there are 16384 or more (section 11.9 of ITU-T X.691). */
  function LengthOctets(n: nat): seq<octet> {
    if n < 128 then [n]
    else if n < 16384 then [128 + n / 256, n % 256]
    else if n < 65536 then [192 + n / 16384]
    else [196]
  }

  function FragmentSize(n: nat): (k: nat)
    ensures k <= n && (n > 0 ==> k > 0)
  {
    if n < 16384 then n else if n < 65536 then n / 16384 * 16384 else 65536
  }

  /** The determinant written is that length, octet for octet. */
  lemma HeaderOctets(n: nat)
    ensures LengthHeader(n) == OctetBits(LengthOctets(n))
  {
    hide ToBits;
    SizeIs(n);
    if n < 128 {
      OneOctet(n);
    } else if n < 16384 {
      var hi, lo := 128 + n / 256, n % 256;
      Pow2At8And16();
      ShlBy8(hi);
      ToBitsJoin(hi, lo, 8, 8);
      OctetBitsCons([hi, lo]);
      OneOctet(lo);
    } else {
      OneOctet(LengthOctets(n)[0]);
    }
  }

  /** And as many units may follow. */
  lemma SizeIs(n: nat)
    ensures FragmentSize(n) == MaySave(n)
  {
  }

  /** What every determinant means, also one the encoder does not write; the rest of the leading octets are refused. */
  lemma DeterminantRead(s: seq<octet>, bits: seq<bit>, pos: nat)
    requires s != [] && At(bits, pos, OctetBits(s))
    ensures var first: nat := s[0];
            if first < 128 then ReadHeader(bits, pos) == Some(Read((first, false), pos + 8))
            else if first < 192 then
              if |s| == 1 then pos + 16 > |bits| ==> ReadHeader(bits, pos) == None
              else ReadHeader(bits, pos) == Some(Read((first * 256 + s[1] - 32768, false), pos + 16))
            else if first in {193, 194, 195, 196} then
              ReadHeader(bits, pos) == Some(Read((first * 16384 - 3145728, true), pos + 8))
            else ReadHeader(bits, pos) == None
  {
    hide Few, OctetBits, At, ReadHeader;
    LeadingOctets(s, bits, pos);
    HeaderFromOctets(bits, pos, s[0]);
  }

  lemma HeaderFromOctets(bits: seq<bit>, pos: nat, first: nat)
    requires pos <= |bits| && Few(bits, pos, 8) == Some(Read(first, pos + 8))
    ensures ReadHeader(bits, pos)
         == if first < 128 then Some(Read((first, false), pos + 8))
            else if first < 192 then
              match Few(bits, pos + 8, 8)
              case None => None
              case Some(low) => Some(Read((first * 256 + low.value - 32768, false), low.pos))
            else if first in {193, 194, 195, 196} then Some(Read((first * 16384 - 3145728, true), pos + 8))
            else None
  {
    hide Few;
  }

  /** The first two octets of what the stream holds, as eight-bit fields. */
  lemma LeadingOctets(s: seq<octet>, bits: seq<bit>, pos: nat)
    requires s != [] && At(bits, pos, OctetBits(s))
    ensures pos + 8 <= |bits| && Few(bits, pos, 8) == Some(Read(s[0], pos + 8))
    ensures |s| > 1 ==> Few(bits, pos + 8, 8) == Some(Read(s[1], pos + 16))
    ensures pos + 16 > |bits| ==> Few(bits, pos + 8, 8) == None
  {
    hide ToBits, OctetBits, At, Few;
    Pow2At8And16();
    OctetBitsCons(s);
    AtSplit(bits, pos, ToBits(s[0], 8), OctetBits(s[1..]));
    FewAt(bits, pos, s[0], 8);
    if |s| > 1 {
      OctetBitsCons(s[1..]);
      AtSplit(bits, pos + 8, ToBits(s[1], 8), OctetBits(s[1..][1..]));
      FewAt(bits, pos + 8, s[1], 8);
    }
    if pos + 16 > |bits| {
      FewFails(bits, pos + 8, 8);
    }
  }

  lemma FewFails(bits: seq<bit>, pos: nat, n: nat)
    requires pos <= |bits| < pos + n
    ensures Few(bits, pos, n) == None
  {
  }

  method PutHeader(po: Writer, length: nat) returns (may: nat)
    modifies po
    ensures may == MaySave(length)
    ensures po.bits == old(po.bits) + LengthHeader(length)
  {
    hide ToBits;
    var ok;
    if length <= 127 {
      ok := po.PutFew(length, 8);
      return length;
    } else if length < FRAGMENT {
      ok := po.PutFew(length + 0x8000, 16);
      return length;
    }
    var units := length / FRAGMENT;
    if units > 4 { units := 4; }
    ok := po.PutFew(0xC0 + units, 8);
    may := units * FRAGMENT;
  }

  /** None is the failure of a determinant that is cut short or asks for more than four fragments. */
  method GetHeader(pd: Reader) returns (length: Option<(nat, bool)>)
    requires pd.Valid()
    modifies pd
    ensures pd.Valid()
    ensures match ReadHeader(pd.bits, old(pd.pos))
            case None => length == None
            case Some(r) => length == Some(r.value) && pd.pos == r.pos
  {
    hide FromBits;
    var v := pd.GetFew(8);
    if v == None { return None; }
    if v.value < 128 { return Some((v.value, false)); }
    if v.value < 192 {
      var low := pd.GetFew(8);
      if low == None { return None; }
      return Some(((v.value - 128) * 256 + low.value, false));
    }
    if v.value < 193 || v.value > 196 { return None; }
    length := Some(((v.value - 192) * FRAGMENT, true));
  }

  // ----- pieces gathered over several fragments ----------------------------------------------

  /** What is gathered already in front of what is still to come. */
  function Prepend<T>(sofar: seq<T>, rest: Option<Read<seq<T>>>): Option<Read<seq<T>>> {
    match rest
    case None => None
    case Some(r) => Some(Read(sofar + r.value, r.pos))
  }

  lemma PrependTwice<T>(a: seq<T>, b: seq<T>, rest: Option<Read<seq<T>>>)
    ensures Prepend([], rest) == rest
    ensures Prepend(a, Prepend(b, rest)) == Prepend(a + b, rest)
  {
    if rest.Some? {
      assert [] + rest.value.value == rest.value.value;
      assert a + (b + rest.value.value) == (a + b) + rest.value.value;
    }
  }

  lemma PrependNone<T>(sofar: seq<T>)
    ensures Prepend(sofar, None) == None
  {
  }

  /** One piece more gathered: the last, or one before others. */
  lemma PieceGathered<T>(sofar: seq<T>, piece: seq<T>, rest: Option<Read<seq<T>>>, pos: nat)
    ensures Prepend(sofar, Some(Read(piece, pos))) == Some(Read(sofar + piece, pos))
    ensures Prepend(sofar, if rest.None? then None else Some(Read(piece + rest.value.value, rest.value.pos)))
         == Prepend(sofar + piece, rest)
  {
    PrependTwice(sofar, piece, rest);
  }

  // ----- the extension bit ---------------------------------------------------------------------

  function ExtensionBits(extensible: bool, outside: bool): seq<bit> {
    if extensible then [if outside then 1 else 0] else []
  }

  /** The bit, or nothing, that says whether the value lies outside the root. */
  function ReadExtension(bits: seq<bit>, pos: nat, extensible: bool): (r: Option<Read<nat>>)
    requires pos <= |bits|
    ensures r.Some? ==> pos <= r.value.pos <= |bits|
  {
    if extensible then Few(bits, pos, 1) else Some(Read(0, pos))
  }

  lemma ExtensionRoundTrip(extensible: bool, outside: bool, bits: seq<bit>, pos: nat)
    requires At(bits, pos, ExtensionBits(extensible, outside))
    ensures ReadExtension(bits, pos, extensible)
         == Some(Read(if extensible && outside then 1 else 0, pos + |ExtensionBits(extensible, outside)|))
  {
    if extensible {
      var b := if outside then 1 else 0;
      assert ToBits(b, 1) == [b];
      assert Pow2(1) == 2;
      FewAt(bits, pos, b, 1);
    }
  }

  method PutBit(po: Writer, outside: bool)
    modifies po
    ensures po.bits == old(po.bits) + [if outside then 1 else 0]
  {
    var b := if outside then 1 else 0;
    var ok := po.PutFew(b, 1);
    assert ToBits(b, 1) == [b];
  }
}
