/** ENUMERATED in unaligned PER: the index of the value, or of the extension. */
module NativeEnumerated {
  import opened Octets
  import opened BitStream
  import opened PerFields
  import opened EnumMap

  /** The part of `asn_per_constraint_t` an enumeration uses. */
  datatype Constraint = Constraint(extensible: bool, rangeBits: int)

  /** How many entries belong to the extension root. */
  function RootCount(specs: Specs): nat
    requires specs.extension >= 0
  {
    if specs.extension > 0 then specs.extension - 1 else |specs.value2enum|
  }

  // ----- normally small numbers ----------------------------------------------

  /** `uper_put_nsnnwn` */
  function PutSmall(n: int): Option<seq<bit>> {
    if n < 0 || n >= 0x100_0000 then None
    else if n <= 63 then Some(ToBits(n, 7))
    else
      var bytes := if n < 256 then 1 else if n < 65536 then 2 else 3;
      Some(ToBits(bytes, 8) + ToBits(n, 8 * bytes))
  }

  /** `uper_get_nsnnwn`; every failed read ends in -1. */
  function GetSmall(bits: seq<bit>, pos: nat): (r: Option<Read<nat>>)
    requires pos <= |bits|
    ensures r.Some? ==> r.value.pos <= |bits|
  {
    var v :- Few(bits, pos, 7);
    if v.value < 64 then Some(v)
    else
      var low :- Few(bits, v.pos, 2);
      var size := (v.value - 64) * 4 + low.value;
      if size >= 128 then None
      else if size == 0 then Some(Read(0, low.pos))
      else if size >= 3 then None
      else Few(bits, low.pos, 8 * size)
  }

  /** A small number is read back, and consumed exactly, only up to 63: the two sides disagree on longer forms. */
  lemma SmallRoundTrip(n: int, bits: seq<bit>, pos: nat)
    requires PutSmall(n).Some?
    requires At(bits, pos, PutSmall(n).value)
    ensures GetSmall(bits, pos) == Some(Read(n, pos + |PutSmall(n).value|)) <==> n <= 63
    ensures GetSmall(bits, pos).Some? && GetSmall(bits, pos).value.pos == pos + 7
    ensures n > 63 ==> |PutSmall(n).value| > 7
  {
    hide ToBits;
    assert Pow2(7) == 128 by { assert Pow2(4) == 16; }
    if n <= 63 {
      FewAt(bits, pos, n, 7);
    } else {
      var bytes: nat := if n < 256 then 1 else if n < 65536 then 2 else 3;
      var number: nat := n;
      AtSplit(bits, pos, ToBits(bytes, 8), ToBits(number, 8 * bytes));
      HighSeven(bytes);
      AtSplit(bits, pos, ToBits(bytes / 2, 7), [bytes % 2]);
      FewAt(bits, pos, bytes / 2, 7);
    }
  }

  lemma HighSeven(v: nat)
    ensures ToBits(v, 8) == ToBits(v / 2, 7) + [v % 2]
  {
  }

  /** The forms of a small number: six bits after a zero, or the fewest octets that hold it, after their count. */
  ghost predicate SmallForm(enc: seq<bit>, n: int) {
    if n < 64 then n >= 0 && |enc| == 7 && FromBits(enc) == n
    else exists octets: seq<octet> :: 1 <= |octets| <= 3 && FewestOctets(octets, n) && enc == OctetBits([|octets|] + octets)
  }

  predicate FewestOctets(octets: seq<octet>, n: int) {
    Unsigned(octets) == n && octets != [] && octets[0] != 0
  }

  /** `uper_put_nsnnwn` writes the one form a number has; those below 0 or above 2^24 - 1 have none. */
  lemma SmallWritten(n: int, enc: seq<bit>)
    ensures PutSmall(n) == Some(enc) <==> SmallForm(enc, n)
  {
    hide ToBits, FromBits, OctetBits, Unsigned, OctetsOf;
    Pow256Values();
    if 0 <= n < 64 {
      assert Pow2(7) == 128 by { assert Pow2(4) == 16; }
      FromToBits(n, 7);
      ToFromBits(enc);
    } else if 64 <= n < 0x100_0000 {
      LongForm(n);
      var k := if n < 256 then 1 else if n < 65536 then 2 else 3;
      var octets := OctetsOf(n, k);
      forall other: seq<octet> | FewestOctets(other, n) && |other| <= 3
        ensures other == octets
      {
        FewestUnique(other, octets, n);
      }
    } else if n >= 0 {
      forall other: seq<octet> | FewestOctets(other, n)
        ensures |other| > 3
      {
        TooFew(other, 3);
      }
    }
  }

  lemma Pow256Values()
    ensures Pow256(0) == 1 && Pow256(1) == 256 && Pow256(2) == 65536 && Pow256(3) == 0x100_0000
  {
  }

  lemma TooFew(octets: seq<octet>, k: nat)
    requires Unsigned(octets) >= Pow256(k)
    ensures |octets| > k
  {
    hide Unsigned, Pow256;
    UnsignedBound(octets);
    if |octets| <= k { Pow256Monotone(|octets|, k); }
  }

  lemma LongForm(n: nat)
    requires 64 <= n < 0x100_0000
    ensures var k := if n < 256 then 1 else if n < 65536 then 2 else 3;
            var octets := OctetsOf(n, k);
            && FewestOctets(octets, n)
            && PutSmall(n) == Some(OctetBits([k] + octets))
  {
    hide ToBits, OctetBits, Unsigned, OctetsOf, Pow256;
    var k: nat := if n < 256 then 1 else if n < 65536 then 2 else 3;
    var octets := OctetsOf(n, k);
    Pow256Values();
    UnsignedOctetsOf(n, k);
    OctetsOfAt(n, k, 0);
    assert octets[0] != 0 by { LeadIs(n, k); }
    OctetBitsCons([k] + octets);
    assert ([k] + octets)[1..] == octets;
    ToBitsOfUnsigned(octets);
  }

  lemma LeadIs(n: nat, k: nat)
    requires 1 <= k <= 3 && Pow256(k - 1) <= n < Pow256(k)
    ensures ShiftOctets(n, k - 1) % 256 != 0
  {
    hide ShiftOctets, Pow256;
    ShiftOctetsIsZero(n, k - 1);
    ShiftOctetsIsZero(n, k);
    ShiftOctetsNext(n, k - 1);
  }

  lemma FewestUnique(a: seq<octet>, b: seq<octet>, n: int)
    requires FewestOctets(a, n) && FewestOctets(b, n)
    ensures a == b
  {
    hide Unsigned, Pow256;
    LeadBounds(a);
    LeadBounds(b);
    TooFew(a, |b| - 1);
    TooFew(b, |a| - 1);
    UnsignedInjective(a, b);
  }

  lemma LeadBounds(s: seq<octet>)
    requires s != [] && s[0] != 0
    ensures Unsigned(s) >= Pow256(|s| - 1)
  {
    hide Unsigned, Pow256;
    UnsignedCons(s);
    MulMonotone(1, s[0], Pow256(|s| - 1));
  }

  /** `uper_get_nsnnwn` on every stream: after a one it takes the next eight bits, not seven, for the count, and at most two octets. */
  lemma SmallRead(bits: seq<bit>, pos: nat, r: Read<nat>)
    requires pos <= |bits|
    ensures GetSmall(bits, pos) == Some(r) <==>
            if pos + 7 <= |bits| && bits[pos] == 0 then r == Read(FromBits(bits[pos..pos + 7]), pos + 7)
            else
              && pos + 9 <= |bits|
              && var k := FromBits(bits[pos + 1..pos + 9]);
              && k <= 2 && pos + 9 + 8 * k <= |bits|
              && r == Read(FromBits(bits[pos + 9..pos + 9 + 8 * k]), pos + 9 + 8 * k)
  {
    hide FromBits, Shl, Pow2;
    SixUp(FromBits(if pos + 7 <= |bits| then bits[pos + 1..pos + 7] else []));
    if pos + 7 <= |bits| {
      LeadingBit(bits[pos..pos + 7]);
      assert bits[pos..pos + 7][1..] == bits[pos + 1..pos + 7];
      if pos + 9 <= |bits| {
        assert bits[pos + 1..pos + 9] == bits[pos + 1..pos + 7] + bits[pos + 7..pos + 9];
        FromBitsConcat(bits[pos + 1..pos + 7], bits[pos + 7..pos + 9]);
        FromBitsBound(bits[pos + 1..pos + 7]);
        FromBitsBound(bits[pos + 7..pos + 9]);
        FromBitsOfNothing();
        var k := FromBits(bits[pos + 1..pos + 9]);
        assert k == 4 * FromBits(bits[pos + 1..pos + 7]) + FromBits(bits[pos + 7..pos + 9]);
        assert bits[pos + 9..pos + 9] == [];
        assert bits[pos] == 1 ==> FromBits(bits[pos..pos + 7]) == 64 + FromBits(bits[pos + 1..pos + 7]);
        assert bits[pos] == 0 ==> FromBits(bits[pos..pos + 7]) == FromBits(bits[pos + 1..pos + 7]);
      }
    }
  }

  lemma FromBitsOfNothing()
    ensures FromBits([]) == 0
  {
  }

  lemma LeadingBit(b: seq<bit>)
    requires |b| == 7
    ensures FromBits(b) == b[0] * 64 + FromBits(b[1..]) && FromBits(b[1..]) < 64
  {
    var first, rest := b[..1], b[1..];
    assert b == first + rest && first[..0] == [];
    assert FromBits(first) == b[0];
    hide FromBits;
    FromBitsConcat(first, rest);
    FromBitsBound(rest);
    SixUp(b[0]);
  }

  lemma SixUp(v: nat)
    ensures Shl(v, 6) == 64 * v && Shl(v, 2) == 4 * v && Pow2(6) == 64 && Pow2(2) == 4
  {
    assert Shl(v, 1) == 2 * v && Pow2(1) == 2;
    assert Shl(v, 2) == 4 * v && Pow2(2) == 4;
    assert Shl(v, 3) == 8 * v && Pow2(3) == 8;
    assert Shl(v, 4) == 16 * v && Pow2(4) == 16;
    assert Shl(v, 5) == 32 * v && Pow2(5) == 32;
  }

  // ----- the codec ------------------------------------------------------------

  /** Position of a number in the table: what bsearch finds. */
  function IndexOf(table: seq<Entry>, native: int): (r: Option<nat>)
    ensures r.Some? ==> r.value < |table| && table[r.value].value == native
    ensures r == None ==> forall i :: 0 <= i < |table| ==> table[i].value != native
  {
    if table == [] then None
    else if table[0].value == native then Some(0)
    else
      var k := IndexOf(table[1..], native);
      assert k == None ==> forall i :: 0 < i < |table| ==> table[i] == table[1..][i - 1];
      if k == None then None else Some(k.value + 1)
  }

  /** The bits `NativeEnumerated_encode_uper` appends; None is its failure. */
  function Encoding(specs: Specs, ct: Constraint, native: int): Option<seq<bit>>
    requires specs.extension >= 0
  {
    var value :- IndexOf(specs.value2enum, native);
    var inext := ct.rangeBits >= 0 && value >= RootCount(specs);
    if inext && !ct.extensible then None
    else
      var ext := ExtensionBits(ct.extensible, inext);
      if ct.rangeBits >= 0 && !inext then
        if ct.rangeBits >= 32 then None else Some(ext + ToBits(value, ct.rangeBits))
      else if specs.extension == 0 then None
      else
        var small :- PutSmall(value - if inext then specs.extension - 1 else 0);
        Some(ext + small)
  }

  /** The number `NativeEnumerated_decode_uper` stores; None is its failure. */
  function Decoding(specs: Specs, ct: Constraint, bits: seq<bit>, pos: nat): Option<Read<int>>
    requires specs.extension >= 0 && pos <= |bits|
  {
    var inext :- ReadExtension(bits, pos, ct.extensible);
    if inext.value == 0 && ct.rangeBits >= 0 then
      var value :- Few(bits, inext.pos, ct.rangeBits);
      if value.value >= RootCount(specs) || value.value >= |specs.value2enum| then None
      else Some(Read(specs.value2enum[value.value].value, value.pos))
    else if specs.extension == 0 then None
    else
      var small :- GetSmall(bits, inext.pos);
      var value := small.value + specs.extension - 1;
      if value >= |specs.value2enum| then None
      else Some(Read(specs.value2enum[value].value, small.pos))
  }

  /** When decoding undoes encoding for the entry at this index. */
  predicate Survives(specs: Specs, ct: Constraint, index: nat)
    requires specs.extension >= 0
  {
    if ct.rangeBits < 0 then specs.extension == 1 && index <= 63
    else if index < RootCount(specs) then index < Pow2(ct.rangeBits)
    else index - RootCount(specs) <= 63
  }

  /** Encode then decode gives back the number, and the position after it, exactly for the indices that survive. */
  lemma RoundTrip(specs: Specs, ct: Constraint, native: int, bits: seq<bit>, pos: nat)
    requires specs.WellFormed()
    requires Encoding(specs, ct, native).Some?
    requires At(bits, pos, Encoding(specs, ct, native).value)
    ensures var end := pos + |Encoding(specs, ct, native).value|;
            (Decoding(specs, ct, bits, pos) == Some(Read(native, end)))
            == Survives(specs, ct, IndexOf(specs.value2enum, native).value)
  {
    hide ToBits, FromBits, Pow2, GetSmall, PutSmall, IndexOf;
    var table := specs.value2enum;
    var value := IndexOf(specs.value2enum, native).value;
    var inext := ct.rangeBits >= 0 && value >= RootCount(specs);
    var ext := ExtensionBits(ct.extensible, inext);
    if ct.rangeBits >= 0 && !inext {
      AtSplit(bits, pos, ext, ToBits(value, ct.rangeBits));
      ExtensionRoundTrip(ct.extensible, inext, bits, pos);
      FewBitsAt(bits, pos + |ext|, value, ct.rangeBits);
      var other := FromBits(ToBits(value, ct.rangeBits));
      assert other < |table| && other != value ==> table[other].value != table[value].value;
    } else {
      var n := value - if inext then specs.extension - 1 else 0;
      AtSplit(bits, pos, ext, PutSmall(n).value);
      ExtensionRoundTrip(ct.extensible, inext, bits, pos);
      SmallRoundTrip(n, bits, pos + |ext|);
      var other := GetSmall(bits, pos + |ext|).value.value + specs.extension - 1;
      assert 0 <= other < |table| && other != value ==> table[other].value != table[value].value;
    }
  }

  /** The entry stands in front of the extension marker, or there is none. */
  predicate InRoot(specs: Specs, index: int) {
    specs.extension == 0 || index + 1 < specs.extension
  }

  /** The bits are those of the entry at this index. */
  ghost predicate Coded(enc: seq<bit>, specs: Specs, ct: Constraint, index: nat) {
    var flag: seq<bit> := if !ct.extensible then [] else if ct.rangeBits < 0 || InRoot(specs, index) then [0] else [1];
    && flag <= enc
    && var field := enc[|flag|..];
    if ct.rangeBits < 0 then specs.extension > 0 && SmallForm(field, index)
    else if InRoot(specs, index) then ct.rangeBits <= 31 && field == ToBits(index, ct.rangeBits)
    else ct.extensible && SmallForm(field, index + 1 - specs.extension)
  }

  /** The encoder writes these bits exactly when they are those of the entry that has the number. */
  lemma EncodedIff(specs: Specs, ct: Constraint, native: int, enc: seq<bit>)
    requires specs.WellFormed()
    ensures Encoding(specs, ct, native) == Some(enc) <==>
            exists i :: 0 <= i < |specs.value2enum| && specs.value2enum[i].value == native && Coded(enc, specs, ct, i)
  {
    hide ToBits, PutSmall, SmallForm, IndexOf, Coded;
    var table := specs.value2enum;
    var found := IndexOf(table, native);
    if found.Some? {
      CodedIff(specs, ct, native, found.value, enc);
      assert forall i :: 0 <= i < |table| && i != found.value ==> table[i].value != native;
    }
  }

  lemma CodedIff(specs: Specs, ct: Constraint, native: int, index: nat, enc: seq<bit>)
    requires specs.WellFormed() && IndexOf(specs.value2enum, native) == Some(index)
    ensures Encoding(specs, ct, native) == Some(enc) <==> Coded(enc, specs, ct, index)
  {
    hide ToBits, PutSmall, SmallForm, IndexOf;
    var inext := ct.rangeBits >= 0 && index >= RootCount(specs);
    assert inext <==> ct.rangeBits >= 0 && !InRoot(specs, index);
    var ext := ExtensionBits(ct.extensible, inext);
    var n := index - if inext then specs.extension - 1 else 0;
    if ext <= enc {
      assert enc == ext + enc[|ext|..];
      SmallWritten(n, enc[|ext|..]);
    }
    assert PutSmall(n).Some? ==> (ext + PutSmall(n).value)[|ext|..] == PutSmall(n).value;
    assert ct.rangeBits >= 0 ==> (ext + ToBits(index, ct.rangeBits))[|ext|..] == ToBits(index, ct.rangeBits);
  }

  /** Which number the decoder stores, for every stream: an entry of the root by its index, or one behind it. */
  lemma DecodedIff(specs: Specs, ct: Constraint, bits: seq<bit>, pos: nat, r: Read<int>)
    requires specs.WellFormed() && pos < |bits|
    ensures Decoding(specs, ct, bits, pos) == Some(r) <==>
            var p := if ct.extensible then pos + 1 else pos;
            if ct.rangeBits >= 0 && (ct.extensible ==> bits[pos] == 0) then
              && ct.rangeBits <= 31 && p + ct.rangeBits <= |bits|
              && var i := FromBits(bits[p..p + ct.rangeBits]);
              && i < |specs.value2enum| && InRoot(specs, i)
              && r == Read(specs.value2enum[i].value, p + ct.rangeBits)
            else
              && specs.extension > 0 && GetSmall(bits, p).Some?
              && var i := specs.extension - 1 + GetSmall(bits, p).value.value;
              && i < |specs.value2enum|
              && r == Read(specs.value2enum[i].value, GetSmall(bits, p).value.pos)
  {
    hide GetSmall, FromBits;
    assert FromBits(bits[pos..pos + 1]) == bits[pos] by { OneBit(bits[pos..pos + 1]); }
  }

  lemma OneBit(b: seq<bit>)
    requires |b| == 1
    ensures FromBits(b) == b[0]
  {
    assert b[..0] == [];
  }

  /** `NativeEnumerated_encode_uper`, with its bsearch by number. */
  method EncodeUper(specs: Specs, ct: Constraint, native: int, po: Writer) returns (ok: bool)
    requires specs.WellFormed()
    modifies po
    ensures match Encoding(specs, ct, native)
            case None => !ok
            case Some(enc) => ok && po.bits == old(po.bits) + enc
  {
    hide ToBits, PutSmall;
    var found := FindIndex(specs, native);
    if found == None { return false; }
    var value := found.value;
    var inext := false;
    if ct.rangeBits >= 0 {
      var cmpWith := if specs.extension > 0 then specs.extension - 1 else |specs.value2enum|;
      if value >= cmpWith { inext := true; }
    }
    if ct.extensible {
      PutBit(po, inext);
    } else if inext {
      return false;
    }
    if ct.rangeBits >= 0 && !(ct.extensible && inext) {
      ok := po.PutFew(value, ct.rangeBits);
      return ok;
    }
    if specs.extension == 0 { return false; }
    ok := PutNsnnwn(po, value - if inext then specs.extension - 1 else 0);
  }

  method FindIndex(specs: Specs, native: int) returns (r: Option<nat>)
    requires specs.WellFormed()
    ensures r == IndexOf(specs.value2enum, native)
  {
    var table := specs.value2enum;
    var lo, hi := 0, |table|;
    while lo < hi
      invariant 0 <= lo <= hi <= |table|
      invariant forall i :: 0 <= i < lo ==> table[i].value < native
      invariant forall i :: hi <= i < |table| ==> native < table[i].value
    {
      var mid := (lo + hi) / 2;
      if native < table[mid].value {
        hi := mid;
      } else if native > table[mid].value {
        lo := mid + 1;
      } else {
        return Some(mid);
      }
    }
    r := None;
  }

  method PutNsnnwn(po: Writer, n: int) returns (ok: bool)
    modifies po
    ensures match PutSmall(n)
            case None => !ok
            case Some(b) => ok && po.bits == old(po.bits) + b
  {
    hide ToBits;
    if n <= 63 {
      if n < 0 { return false; }
      ok := po.PutFew(n, 7);
      return ok;
    }
    var bytes;
    if n < 256 {
      bytes := 1;
    } else if n < 65536 {
      bytes := 2;
    } else if n < 256 * 65536 {
      bytes := 3;
    } else {
      return false;
    }
    ok := po.PutFew(bytes, 8);
    if !ok { return false; }
    ok := po.PutFew(n, 8 * bytes);
  }

  /** `uper_get_nsnnwn` */
  method GetNsnnwn(pd: Reader) returns (n: Option<nat>)
    requires pd.Valid()
    modifies pd
    ensures pd.Valid()
    ensures match GetSmall(pd.bits, old(pd.pos))
            case None => n == None
            case Some(r) => n == Some(r.value) && pd.pos == r.pos
  {
    hide FromBits;
    n := pd.GetFew(7);
    if n == None || n.value < 64 { return n; }
    var low := pd.GetFew(2);
    if low == None { return None; }
    var size := (n.value - 64) * 4 + low.value;
    if size >= 128 { return None; }
    if size == 0 { return Some(0); }
    if size >= 3 { return None; }
    n := pd.GetFew(8 * size);
  }

  /** `NativeEnumerated_decode_uper` */
  method DecodeUper(specs: Specs, ct: Constraint, pd: Reader) returns (native: Option<int>)
    requires specs.WellFormed() && pd.Valid()
    modifies pd
    ensures pd.Valid()
    ensures match Decoding(specs, ct, pd.bits, old(pd.pos))
            case None => native == None
            case Some(r) => native == Some(r.value) && pd.pos == r.pos
  {
    hide FromBits, GetSmall;
    var root := true;
    if ct.extensible {
      var inext := pd.GetFew(1);
      if inext == None { return None; }
      root := inext.value == 0;
    }
    var value: int;
    if root && ct.rangeBits >= 0 {
      var v := pd.GetFew(ct.rangeBits);
      if v == None { return None; }
      value := v.value;
      if value >= (if specs.extension > 0 then specs.extension - 1 else |specs.value2enum|) { return None; }
    } else {
      if specs.extension == 0 { return None; }
      var v := GetNsnnwn(pd);
      if v == None { return None; }
      value := v.value + specs.extension - 1;
      if value >= |specs.value2enum| { return None; }
    }
    native := Some(specs.value2enum[value].value);
  }
}
