/**
  The PER bit stream: `asn_bit_outp_t` and `asn_bit_data_t` seen as a sequence
  of bits and a cursor, fields most significant bit first.
 */
module BitStream {
  import opened Octets

  type bit = x: int | 0 <= x < 2

  /** A value read from a stream and the position after it. */
  datatype Read<+T> = Read(value: T, pos: nat)

  function Pow2(n: nat): (p: nat)
    ensures p > 0
  {
    if n == 0 then 1 else 2 * Pow2(n - 1)
  }

  /** 2^(8n) == 256^n */
  lemma {:induction false} Pow2Of8(n: nat)
    ensures Pow2(8 * n) == Pow256(n)
  {
    if n > 0 {
      Pow2Of8(n - 1);
      var m := 8 * (n - 1);
      assert Pow2(m + 2) == 4 * Pow2(m);
      assert Pow2(m + 4) == 4 * Pow2(m + 2);
      assert Pow2(m + 6) == 4 * Pow2(m + 4);
      assert Pow2(m + 8) == 4 * Pow2(m + 6);
      assert m + 8 == 8 * n;
    }
  }

  lemma Pow2Monotone(m: nat, n: nat)
    requires m <= n
    ensures Pow2(m) <= Pow2(n)
  {
  }

  lemma Pow2At8And16()
    ensures Pow2(8) == 256 && Pow2(16) == 65536 && Pow2(24) == 0x100_0000
  {
    assert Pow2(4) == 16 && Pow2(12) == 4096 && Pow2(20) == 0x10_0000;
  }

  /** The low n bits of a number, most significant first. */
  function ToBits(v: nat, n: nat): (b: seq<bit>)
    ensures |b| == n
  {
    if n == 0 then [] else ToBits(v / 2, n - 1) + [v % 2]
  }

  function FromBits(b: seq<bit>): (v: nat) {
    if b == [] then 0 else FromBits(b[..|b| - 1]) * 2 + b[|b| - 1]
  }

  lemma {:induction false} FromBitsBound(b: seq<bit>)
    ensures FromBits(b) < Pow2(|b|)
  {
    if b != [] {
      FromBitsBound(b[..|b| - 1]);
    }
  }

  lemma {:induction false} FromToBits(v: nat, n: nat)
    requires v < Pow2(n)
    ensures FromBits(ToBits(v, n)) == v
  {
    if n > 0 {
      FromToBits(v / 2, n - 1);
      assert ToBits(v, n)[..n - 1] == ToBits(v / 2, n - 1);
    }
  }

  lemma {:induction false} ToFromBits(b: seq<bit>)
    ensures ToBits(FromBits(b), |b|) == b
  {
    if b != [] {
      var n := |b| - 1;
      ToFromBits(b[..n]);
      LastBit(b, n);
      assert b == b[..n] + [b[n]];
    }
  }

  lemma LastBit(b: seq<bit>, n: nat)
    requires |b| == n + 1
    ensures ToBits(FromBits(b), n + 1) == ToBits(FromBits(b[..n]), n) + [b[n]]
  {
    hide ToBits;
    var u, x := FromBits(b[..n]), b[n];
    assert FromBits(b) == u * 2 + x;
    ToBitsSnoc(u, x, n);
  }

  lemma ToBitsSnoc(u: nat, x: bit, n: nat)
    ensures ToBits(u * 2 + x, n + 1) == ToBits(u, n) + [x]
  {
  }

  /** `v >> n` */
  function Shr(v: nat, n: nat): nat {
    if n == 0 then v else Shr(v / 2, n - 1)
  }

  /** `v << n`, without truncation. */
  function Shl(v: nat, n: nat): nat {
    if n == 0 then v else 2 * Shl(v, n - 1)
  }

  lemma ShlBy8(v: nat)
    ensures Shl(v, 8) == 256 * v
  {
    assert Shl(v, 1) == 2 * v;
    assert Shl(v, 2) == 4 * v;
    assert Shl(v, 4) == 4 * Shl(v, 2);
    assert Shl(v, 6) == 4 * Shl(v, 4);
  }

  /** A field is its high part followed by its low part. */
  lemma {:induction false} ToBitsSplit(v: nat, m: nat, n: nat)
    ensures ToBits(v, m + n) == ToBits(Shr(v, n), m) + ToBits(v, n)
  {
    if n > 0 {
      ToBitsSplit(v / 2, m, n - 1);
      assert ToBits(v, m + n) == ToBits(v / 2, m + (n - 1)) + [v % 2];
    }
  }

  lemma {:induction false} ToBitsJoin(hi: nat, lo: nat, m: nat, n: nat)
    requires lo < Pow2(n)
    ensures ToBits(Shl(hi, n) + lo, m + n) == ToBits(hi, m) + ToBits(lo, n)
  {
    if n > 0 {
      ToBitsJoin(hi, lo / 2, m, n - 1);
      assert (Shl(hi, n) + lo) / 2 == Shl(hi, n - 1) + lo / 2;
      assert ToBits(Shl(hi, n) + lo, m + n) == ToBits(Shl(hi, n - 1) + lo / 2, m + (n - 1)) + [lo % 2];
    }
  }

  function Zeros(n: nat): (z: seq<bit>)
    ensures |z| == n
  {
    seq(n, _ => 0)
  }

  lemma {:induction false} ToBitsOfZero(n: nat)
    ensures ToBits(0, n) == Zeros(n)
  {
    if n > 0 {
      ToBitsOfZero(n - 1);
      assert Zeros(n) == Zeros(n - 1) + [0];
    }
  }

  /** The bits of an octet string. */
  function OctetBits(s: seq<octet>): (b: seq<bit>)
    ensures |b| == 8 * |s|
  {
    if s == [] then [] else ToBits(s[0], 8) + OctetBits(s[1..])
  }

  lemma OneOctet(o: octet)
    ensures OctetBits([o]) == ToBits(o, 8)
  {
  }

  lemma OctetBitsCons(s: seq<octet>)
    requires s != []
    ensures OctetBits(s) == ToBits(s[0], 8) + OctetBits(s[1..])
  {
    hide ToBits;
  }

  lemma {:induction false} OctetBitsConcat(a: seq<octet>, b: seq<octet>)
    ensures OctetBits(a + b) == OctetBits(a) + OctetBits(b)
  {
    if a == [] {
      assert a + b == b;
    } else {
      hide OctetBits, ToBits;
      OctetBitsConcat(a[1..], b);
      OctetBitsCons(a);
      OctetBitsCons(a + b);
      FirstOfConcat(a, b);
      Associative(ToBits(a[0], 8), OctetBits(a[1..]), OctetBits(b));
    }
  }

  /** Bits packed into octets from the left, the last octet padded with zero bits. */
  function Pack(b: seq<bit>): (s: seq<octet>)
    ensures |s| == (|b| + 7) / 8
  {
    if b == [] then []
    else if |b| <= 8 then [PackOctet(b)]
    else [PackOctet(b[..8])] + Pack(b[8..])
  }

  function PackOctet(b: seq<bit>): (o: octet)
    requires |b| <= 8
  {
    var full := b + Zeros(8 - |b|);
    FromBitsBound(full);
    Pow2At8And16();
    FromBits(full)
  }

  lemma {:induction false} PackOctetBits(s: seq<octet>)
    ensures Pack(OctetBits(s)) == s
  {
    if s != [] {
      PackOctetBits(s[1..]);
      var b := OctetBits(s);
      Pow2At8And16();
      FromToBits(s[0], 8);
      assert ToBits(s[0], 8) + Zeros(0) == ToBits(s[0], 8);
      if |s| == 1 {
        assert b == ToBits(s[0], 8);
      } else {
        assert b[..8] == ToBits(s[0], 8) && b[8..] == OctetBits(s[1..]);
      }
    }
  }

  lemma {:induction false} OctetBitsOfPack(b: seq<bit>)
    ensures OctetBits(Pack(b)) == b + Zeros((8 - |b| % 8) % 8)
  {
    hide Pack, OctetBits, Zeros;
    var z := (8 - |b| % 8) % 8;
    PadIs(|b|);
    if |b| <= 8 {
      PackShort(b);
    } else {
      OctetBitsOfPack(b[8..]);
      PackLong(b, z);
    }
  }

  lemma PadIs(n: nat)
    ensures (8 - n % 8) % 8
         == if n == 0 then 0 else if n <= 8 then 8 - n else (8 - (n - 8) % 8) % 8
  {
    if n > 8 { assert (n - 8) % 8 == n % 8; }
  }

  lemma PackShort(b: seq<bit>)
    requires |b| <= 8
    ensures OctetBits(Pack(b)) == b + Zeros(if b == [] then 0 else 8 - |b|)
  {
    hide PackOctet, ToBits;
    if b != [] {
      PackOctetRestores(b);
      OneOctet(PackOctet(b));
    }
  }

  lemma PackLong(b: seq<bit>, z: nat)
    requires |b| > 8 && OctetBits(Pack(b[8..])) == b[8..] + Zeros(z)
    ensures OctetBits(Pack(b)) == b + Zeros(z)
  {
    hide Pack, PackOctet, OctetBits, ToBits;
    var o := PackOctet(b[..8]);
    PackCons(b);
    PackOctetRestores(b[..8]);
    OneOctet(o);
    OctetBitsConcat([o], Pack(b[8..]));
    assert b[..8] + Zeros(0) == b[..8] && b == b[..8] + b[8..];
    Associative(b[..8], b[8..], Zeros(z));
  }

  lemma PackCons(b: seq<bit>)
    requires b != []
    ensures Pack(b) == if |b| <= 8 then [PackOctet(b)] else [PackOctet(b[..8])] + Pack(b[8..])
  {
    hide PackOctet;
  }

  lemma PackOctetRestores(b: seq<bit>)
    requires |b| <= 8
    ensures ToBits(PackOctet(b), 8) == b + Zeros(8 - |b|)
  {
    ToFromBits(b + Zeros(8 - |b|));
  }

  lemma PackNothing()
    ensures Pack([]) == []
  {
  }

  lemma PackFirst(b: seq<bit>)
    requires |b| >= 8
    ensures Pack(b) == [PackOctet(b[..8])] + Pack(b[8..])
  {
    hide PackOctet;
    if |b| == 8 {
      assert b[..8] == b && b[8..] == [];
    }
  }

  /** Packing distributes over a whole number of octets. */
  lemma {:induction false} PackConcat(a: seq<bit>, b: seq<bit>)
    requires |a| % 8 == 0
    ensures Pack(a + b) == Pack(a) + Pack(b)
  {
    if a == [] {
      assert a + b == b;
      PackNothing();
    } else {
      hide Pack, PackOctet;
      PackFirst(a);
      PackFirst(a + b);
      PrefixOfConcat(a, b, 8);
      PackConcat(a[8..], b);
      Associative([PackOctet(a[..8])], Pack(a[8..]), Pack(b));
    }
  }

  /** The zero bits up to the next octet boundary. */
  function Padding(off: nat): (z: seq<bit>)
    ensures (off + |z|) % 8 == 0 && |z| < 8
  {
    Zeros((8 - off % 8) % 8)
  }

  // ----- writing -----------------------------------------------------------

  class Writer {
    var bits: seq<bit>

    constructor ()
      ensures bits == []
    {
      bits := [];
    }

    /** `asn_put_few_bits`; false is the error return -1. */
    method PutFew(v: nat, n: int) returns (ok: bool)
      modifies this
      ensures ok == (0 <= n < 32)
      ensures bits == old(bits) + if ok then ToBits(v, n) else []
    {
      if n <= 0 || n >= 32 { return n == 0; }
      bits := bits + ToBits(v, n);
      ok := true;
    }

    /** `aper_put_align` */
    method PutAlign() returns (ok: bool)
      modifies this
      ensures ok && bits == old(bits) + Padding(old(|bits|))
    {
      if |bits| % 8 != 0 {
        ToBitsOfZero(8 - |bits| % 8);
        ok := PutFew(0, 8 - |bits| % 8);
        return ok;
      }
      ok := true;
    }

    /** `asn_put_many_bits`: 24 bits at a time, then the remainder. */
    method PutMany(src: seq<octet>, nbits: nat) returns (ok: bool)
      requires nbits <= 8 * |src|
      modifies this
      ensures ok && bits == old(bits) + OctetBits(src)[..nbits]
    {
      hide OctetBits, ToBits, GroupValue;
      var p, left := 0, nbits;
      while left > 0
        invariant 0 <= p && left >= 0 && 8 * p + left == nbits
        invariant bits == old(bits) + OctetBits(src)[..8 * p]
        decreases left
      {
        var done := if left >= 24 then 24 else left;
        var octets := (done + 7) / 8;
        GroupBits(src, p, done);
        var value := GroupValue(src[p..p + octets], done);
        ok := PutFew(value, done);
        assert OctetBits(src)[..8 * p + done] == OctetBits(src)[..8 * p] + OctetBits(src)[8 * p..8 * p + done];
        p, left := p + octets, left - done;
        if left == 0 {
          assert bits == old(bits) + OctetBits(src)[..nbits];
          return;
        }
      }
      ok := true;
    }
  }

  /** Up to three octets shifted together, less the bits beyond the n wanted. */
  function GroupValue(group: seq<octet>, n: nat): nat
    requires |group| == (n + 7) / 8
  {
    Shr(Unsigned(group), 8 * |group| - n)
  }

  lemma ToBitsOctet(u: nat, o: octet, n: nat)
    ensures ToBits(256 * u + o, n + 8) == ToBits(u, n) + ToBits(o, 8)
  {
    hide ToBits, Pow2, Shl;
    Pow2At8And16();
    ShlBy8(u);
    ToBitsJoin(u, o, n, 8);
  }

  lemma {:induction false} ToBitsOfUnsigned(s: seq<octet>)
    ensures ToBits(Unsigned(s), 8 * |s|) == OctetBits(s)
  {
    if s != [] {
      hide ToBits, OctetBits;
      var head, last := s[..|s| - 1], s[|s| - 1];
      ToBitsOfUnsigned(head);
      ToBitsOctet(Unsigned(head), last, 8 * |head|);
      OctetBitsConcat(head, [last]);
      assert s == head + [last];
      OneOctet(last);
    }
  }

  lemma GroupBits(src: seq<octet>, p: nat, n: nat)
    requires 8 * p + n <= 8 * |src|
    ensures p + (n + 7) / 8 <= |src|
    ensures ToBits(GroupValue(src[p..p + (n + 7) / 8], n), n) == OctetBits(src)[8 * p..8 * p + n]
  {
    hide OctetBits, ToBits, Shr, Unsigned;
    var group := src[p..p + (n + 7) / 8];
    ToBitsOfUnsigned(group);
    ToBitsSplit(Unsigned(group), n, 8 * |group| - n);
    OctetBitsConcat(src[..p], group);
    OctetBitsConcat(src[..p] + group, src[p + |group|..]);
    assert src == src[..p] + group + src[p + |group|..];
    assert OctetBits(src)[8 * p..8 * p + n] == OctetBits(group)[..n];
  }

  // ----- reading -----------------------------------------------------------

  /** `asn_get_few_bits` without a refill function. */
  function Few(bits: seq<bit>, pos: nat, n: int): (r: Option<Read<nat>>)
    requires pos <= |bits|
    ensures r.Some? ==> pos <= r.value.pos <= |bits|
  {
    if n < 0 || n > |bits| - pos || n > 31 then None
    else Some(Read(FromBits(bits[pos..pos + n]), pos + n))
  }

  /** `aper_get_align`: the bits up to the next octet boundary, read as a number. */
  function Aligned(bits: seq<bit>, pos: nat): (r: Option<Read<nat>>)
    requires pos <= |bits|
    ensures r.Some? ==> pos <= r.value.pos <= |bits| && r.value.pos % 8 == 0
  {
    if pos % 8 == 0 then Some(Read(0, pos)) else Few(bits, pos, 8 - pos % 8)
  }

  /** `asn_get_many_bits`, left-aligned. */
  function Many(bits: seq<bit>, pos: nat, n: nat): (r: Option<Read<seq<octet>>>)
    requires pos <= |bits|
    ensures r.Some? ==> pos <= r.value.pos <= |bits|
  {
    if n > |bits| - pos then None
    else Some(Read(Pack(bits[pos..pos + n]), pos + n))
  }

  class Reader {
    const bits: seq<bit>
    var pos: nat

    predicate Valid()
      reads this
    {
      pos <= |bits|
    }

    constructor (bits: seq<bit>, pos: nat)
      requires pos <= |bits|
      ensures this.bits == bits && this.pos == pos && Valid()
    {
      this.bits, this.pos := bits, pos;
    }

    /** None is the error return -1, after which the stream has not moved. */
    method GetFew(n: int) returns (v: Option<nat>)
      requires Valid()
      modifies this
      ensures Valid()
      ensures match Few(bits, old(pos), n)
              case None => v == None && pos == old(pos)
              case Some(r) => v == Some(r.value) && pos == r.pos
    {
      if n < 0 || n > |bits| - pos || n > 31 { return None; }
      v := Some(FromBits(bits[pos..pos + n]));
      pos := pos + n;
    }

    /** `aper_get_align`: the value of the bits passed over. */
    method GetAlign() returns (v: Option<nat>)
      requires Valid()
      modifies this
      ensures Valid()
      ensures match Aligned(bits, old(pos))
              case None => v == None && pos == old(pos)
              case Some(r) => v == Some(r.value) && pos == r.pos
    {
      if pos % 8 != 0 {
        v := GetFew(8 - pos % 8);
        return v;
      }
      v := Some(0);
    }

    /** 24 bits at a time, then the remainder shifted to the left of its octets. */
    method GetMany(nbits: nat) returns (dst: Option<seq<octet>>)
      requires Valid()
      modifies this
      ensures Valid()
      ensures match Many(bits, old(pos), nbits)
              case None => dst == None
              case Some(r) => dst == Some(r.value) && pos == r.pos
    {
      hide Pack, FromBits, Ungroup;
      PackNothing();
      var out: seq<octet> := [];
      var left := nbits;
      assert bits[old(pos)..pos] == [];
      while left > 0
        invariant Valid() && 0 <= left <= nbits
        invariant pos == old(pos) + (nbits - left)
        invariant (nbits - left) % 8 == 0 || left == 0
        invariant out == Pack(bits[old(pos)..pos])
      {
        var done := if left >= 24 then 24 else left;
        var v := GetFew(done);
        if v == None { return None; }
        ghost var group := bits[pos - done..pos];
        PackConcat(bits[old(pos)..pos - done], group);
        SliceSplit(bits, old(pos), pos - done, pos);
        UngroupIsPack(group);
        out := out + Ungroup(v.value, done);
        left := left - done;
      }
      dst := Some(out);
    }
  }

  /** The octets stored for an n-bit value: shifted left to fill them, high octet first. */
  function Ungroup(value: nat, n: nat): (s: seq<octet>) {
    OctetsOf(Shl(value, (n + 7) / 8 * 8 - n), (n + 7) / 8)
  }

  lemma {:induction false} FromBitsConcat(a: seq<bit>, b: seq<bit>)
    ensures FromBits(a + b) == Shl(FromBits(a), |b|) + FromBits(b)
  {
    if b == [] {
      assert a + b == a;
    } else {
      var n := |b| - 1;
      FromBitsConcat(a, b[..n]);
      assert (a + b)[..|a| + n] == a + b[..n];
    }
  }

  lemma {:induction false} FromBitsOfZeros(n: nat)
    ensures FromBits(Zeros(n)) == 0
  {
    if n > 0 {
      assert Zeros(n)[..n - 1] == Zeros(n - 1);
      FromBitsOfZeros(n - 1);
    }
  }

  /** The stored octets are the bits packed from the left. */
  lemma UngroupIsPack(group: seq<bit>)
    ensures Ungroup(FromBits(group), |group|) == Pack(group)
  {
    hide *;
    var n, k := |group|, (|group| + 7) / 8;
    var z := 8 * k - n;
    WholeOctets(n);
    UngroupIs(FromBits(group), n, k, z);
    assert FromBits(group + Zeros(z)) == Shl(FromBits(group), z) by {
      FromBitsConcat(group, Zeros(z));
      FromBitsOfZeros(z);
    }
    UnsignedOfPack(group + Zeros(z));
    PackPadded(group, z);
    UnsignedOctets(Pack(group));
  }

  /** The octets that n bits take, and the bits they leave free. */
  lemma WholeOctets(n: nat)
    ensures var z := 8 * ((n + 7) / 8) - n;
            0 <= z < 8 && (n + z) % 8 == 0
  {
  }

  lemma UngroupIs(value: nat, n: nat, k: nat, z: nat)
    requires k == (n + 7) / 8 && z == 8 * k - n
    ensures Ungroup(value, n) == OctetsOf(Shl(value, z), k)
  {
    hide OctetsOf, Shl;
  }

  lemma {:induction false} UnsignedOctets(s: seq<octet>)
    ensures OctetsOf(Unsigned(s), |s|) == s
  {
    if s != [] {
      var n := |s| - 1;
      UnsignedOctets(s[..n]);
      var u := Unsigned(s[..n]);
      assert Unsigned(s) / 256 == u && Unsigned(s) % 256 == s[n];
      assert s == s[..n] + [s[n]];
    }
  }

  lemma {:induction false} FromOctetBits(s: seq<octet>)
    ensures FromBits(OctetBits(s)) == Unsigned(s)
  {
    if s != [] {
      var n := |s| - 1;
      FromOctetBits(s[..n]);
      OctetBitsConcat(s[..n], [s[n]]);
      assert s == s[..n] + [s[n]] && OctetBits([s[n]]) == ToBits(s[n], 8);
      FromBitsConcat(OctetBits(s[..n]), ToBits(s[n], 8));
      Pow2At8And16();
      FromToBits(s[n], 8);
      ShlBy8(Unsigned(s[..n]));
    }
  }

  lemma UnsignedOfPack(b: seq<bit>)
    requires |b| % 8 == 0
    ensures Unsigned(Pack(b)) == FromBits(b)
  {
    hide Pack, FromBits, Unsigned, OctetBits;
    OctetBitsOfPack(b);
    assert b + Zeros(0) == b;
    FromOctetBits(Pack(b));
  }

  lemma {:induction false} PackPadded(b: seq<bit>, z: nat)
    requires z < 8 && (|b| + z) % 8 == 0
    ensures Pack(b + Zeros(z)) == Pack(b)
  {
    if b != [] && |b| <= 8 {
      assert (b + Zeros(z)) + Zeros(0) == b + Zeros(8 - |b|);
    } else if |b| > 8 {
      PackPadded(b[8..], z);
      assert (b + Zeros(z))[..8] == b[..8] && (b + Zeros(z))[8..] == b[8..] + Zeros(z);
    }
  }

  // ----- reading back what was written ---------------------------------------

  /** The stream holds `segment` at position `pos`. */
  predicate At(bits: seq<bit>, pos: nat, segment: seq<bit>) {
    pos + |segment| <= |bits| && bits[pos..pos + |segment|] == segment
  }

  lemma AtSplit(bits: seq<bit>, pos: nat, a: seq<bit>, b: seq<bit>)
    ensures At(bits, pos, a + b) <==> At(bits, pos, a) && At(bits, pos + |a|, b)
  {
    if pos + |a| + |b| <= |bits| {
      var s := bits[pos..pos + |a + b|];
      assert s[..|a|] == bits[pos..pos + |a|];
      assert s[|a|..] == bits[pos + |a|..pos + |a| + |b|];
      assert s == s[..|a|] + s[|a|..];
      assert (a + b)[..|a|] == a && (a + b)[|a|..] == b;
    }
  }

  /** A field is read as the number its bits stand for, whether or not it was too small for its value. */
  lemma FewBitsAt(bits: seq<bit>, pos: nat, v: nat, n: nat)
    requires n <= 31 && At(bits, pos, ToBits(v, n))
    ensures Few(bits, pos, n) == Some(Read(FromBits(ToBits(v, n)), pos + n))
    ensures FromBits(ToBits(v, n)) == v <==> v < Pow2(n)
  {
    hide ToBits, FromBits;
    FromBitsBound(ToBits(v, n));
    if v < Pow2(n) { FromToBits(v, n); }
  }

  lemma FewAt(bits: seq<bit>, pos: nat, v: nat, n: nat)
    requires n <= 31 && v < Pow2(n)
    requires At(bits, pos, ToBits(v, n))
    ensures Few(bits, pos, n) == Some(Read(v, pos + n))
  {
    FromToBits(v, n);
  }

  lemma AlignedAt(bits: seq<bit>, pos: nat)
    requires At(bits, pos, Padding(pos))
    ensures Aligned(bits, pos) == Some(Read(0, pos + |Padding(pos)|))
  {
    hide ToBits, FromBits, At;
    if pos % 8 != 0 {
      ToBitsOfZero(8 - pos % 8);
      FewAt(bits, pos, 0, 8 - pos % 8);
    }
  }

  lemma ManyAtSegment(bits: seq<bit>, pos: nat, s: seq<octet>, segment: seq<bit>, n: nat)
    requires At(bits, pos, segment) && segment == OctetBits(s) && n == |segment|
    ensures Many(bits, pos, n) == Some(Read(s, pos + n))
  {
    hide Pack, OctetBits;
    PackOctetBits(s);
    assert bits[pos..pos + n] == segment;
  }

  lemma ManyAt(bits: seq<bit>, pos: nat, s: seq<octet>)
    requires At(bits, pos, OctetBits(s))
    ensures Many(bits, pos, 8 * |s|) == Some(Read(s, pos + 8 * |s|))
  {
    hide *;
    var n := |OctetBits(s)|;
    ManyAtSegment(bits, pos, s, OctetBits(s), n);
    assert n == 8 * |s|;
  }
}
