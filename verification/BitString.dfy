/**
  BIT STRING values: removal of trailing zero bits, and the comparison that
  must ignore them (section 22.7 of ITU-T X.680).
 */
module BitString {
  import opened Octets
  import opened BitStream

  /** `BIT_STRING_t` as a value: octets and the number of unused bits in the last one. */
  datatype BitStr = BitStr(buf: seq<octet>, unused: nat) {
    /** What `BIT_STRING_constraint` demands. */
    predicate Valid() {
      unused <= 7 && (buf == [] ==> unused == 0)
    }

    /** The bits the value stands for. */
    function Bits(): (b: seq<bit>)
      requires Valid()
      ensures |b| == 8 * |buf| - unused
    {
      OctetBits(buf)[..8 * |buf| - unused]
    }

    /** The unused bits are zero. */
    predicate Clean()
      requires Valid()
    {
      OctetBits(buf) == Bits() + Zeros(unused)
    }
  }

  // ----- compaction ----------------------------------------------------------------

  /** Position after the last one bit. */
  function Significant(b: seq<bit>): (n: nat)
    ensures n <= |b|
    ensures n > 0 ==> b[n - 1] == 1
  {
    if b == [] then 0
    else if b[|b| - 1] == 1 then |b|
    else Significant(b[..|b| - 1])
  }

  /** The octets up to the last non-zero one. */
  function Stripped(s: seq<octet>): (r: seq<octet>)
    ensures r <= s
    ensures r != [] ==> r[|r| - 1] != 0
    ensures forall i :: |r| <= i < |s| ==> s[i] == 0
  {
    if s != [] && s[|s| - 1] == 0 then Stripped(s[..|s| - 1]) else s
  }

  /** The lowest set bit, `v & -v`. */
  function LowestBit(v: nat): (w: nat)
    requires v > 0
    ensures w > 0
  {
    if v % 2 == 1 then 1 else 2 * LowestBit(v / 2)
  }

  /** The three mask tests; on a single bit w, `w & m` is non-zero when w is one of the bits of m. */
  function UnusedFor(w: nat): int {
    7 - (if w in {1, 2, 4, 8} then 4 else 0)
      - (if w in {1, 2, 16, 32} then 2 else 0)
      - (if w in {1, 4, 16, 64} then 1 else 0)
  }

  function TrailingZeros(v: nat): nat
    requires v > 0
  {
    if v % 2 == 1 then 0 else 1 + TrailingZeros(v / 2)
  }

  lemma {:induction false} LowestBitIs(v: nat, n: nat)
    requires 0 < v < Pow2(n)
    ensures TrailingZeros(v) < n && LowestBit(v) == Pow2(TrailingZeros(v))
  {
    if v % 2 == 0 {
      LowestBitIs(v / 2, n - 1);
    }
  }

  lemma UnusedIsTrailingZeros(o: octet)
    requires o > 0
    ensures UnusedFor(LowestBit(o)) == TrailingZeros(o) <= 7
  {
    Pow2At8And16();
    LowestBitIs(o, 8);
    assert Pow2(0) == 1 && Pow2(1) == 2 && Pow2(2) == 4 && Pow2(3) == 8;
    assert Pow2(5) == 32 && Pow2(4) == 16 && Pow2(6) == 64 && Pow2(7) == 128;
  }

  lemma {:induction false} SignificantField(v: nat, n: nat)
    requires v < Pow2(n)
    ensures v > 0 ==> TrailingZeros(v) < n
    ensures Significant(ToBits(v, n)) == if v == 0 then 0 else n - TrailingZeros(v)
  {
    if n > 0 {
      SignificantField(v / 2, n - 1);
      assert ToBits(v, n)[..n - 1] == ToBits(v / 2, n - 1);
    }
  }

  lemma {:induction false} SignificantConcat(a: seq<bit>, b: seq<bit>)
    ensures Significant(a + b) == if Significant(b) > 0 then |a| + Significant(b) else Significant(a)
  {
    if b == [] {
      assert a + b == a;
    } else {
      var n := |b| - 1;
      assert (a + b)[..|a + b| - 1] == a + b[..n];
      SignificantConcat(a, b[..n]);
    }
  }

  /** Dropping zero octets, then the zero bits of the last one, drops exactly the trailing zero bits. */
  lemma {:induction false} CompactLength(s: seq<octet>)
    ensures var r := Stripped(s);
            Significant(OctetBits(s)) == if r == [] then 0 else 8 * |r| - TrailingZeros(r[|r| - 1])
  {
    if s != [] {
      var n := |s| - 1;
      OctetBitsConcat(s[..n], [s[n]]);
      assert s == s[..n] + [s[n]];
      OneOctet(s[n]);
      Pow2At8And16();
      SignificantField(s[n], 8);
      SignificantConcat(OctetBits(s[..n]), ToBits(s[n], 8));
      if s[n] == 0 {
        CompactLength(s[..n]);
      }
    }
  }

  /** `BIT_STRING__compactify` */
  method Compactify(st: BitStr) returns (tmp: BitStr)
    requires st.Valid()
    ensures tmp.buf == Stripped(st.buf) && tmp.Valid()
    ensures tmp.unused == if tmp.buf == [] then 0 else TrailingZeros(tmp.buf[|tmp.buf| - 1])
    ensures 8 * |tmp.buf| - tmp.unused == Significant(OctetBits(st.buf))
  {
    hide OctetBits, Significant;
    CompactLength(st.buf);
    if |st.buf| == 0 { return st; }
    var b := |st.buf| - 1;
    assert st.buf[..b + 1] == st.buf;
    while b > 0 && st.buf[b] == 0
      invariant 0 <= b < |st.buf|
      invariant Stripped(st.buf) == Stripped(st.buf[..b + 1])
    {
      assert st.buf[..b + 1][..b] == st.buf[..b];
      b := b - 1;
    }
    if st.buf[b] != 0 {
      UnusedIsTrailingZeros(st.buf[b]);
      var unused := UnusedFor(LowestBit(st.buf[b]));
      tmp := BitStr(st.buf[..b + 1], unused);
    } else {
      assert st.buf[..b + 1][..b] == st.buf[..b] == [];
      tmp := BitStr(st.buf[..b], 0);
    }
  }

  // ----- the order ------------------------------------------------------------------

  /** Bit i of the octets extended with zero bits for ever. */
  function BitAt(s: seq<octet>, i: nat): bit {
    if i < 8 * |s| then OctetBits(s)[i] else 0
  }

  /** Equal up to trailing zero bits. */
  ghost predicate SameBits(a: seq<octet>, b: seq<octet>) {
    forall i: nat :: BitAt(a, i) == BitAt(b, i)
  }

  /** Bit k is the first to differ, and it is zero in a. */
  ghost predicate DifferFirst(a: seq<octet>, b: seq<octet>, k: nat) {
    && BitAt(a, k) == 0 && BitAt(b, k) == 1
    && forall i: nat :: i < k ==> BitAt(a, i) == BitAt(b, i)
  }

  /** The lexicographic order of the infinite extensions. */
  ghost predicate LexLess(a: seq<octet>, b: seq<octet>) {
    exists k: nat :: DifferFirst(a, b, k)
  }

  lemma LexTrichotomy(a: seq<octet>, b: seq<octet>)
    ensures !(LexLess(a, b) && LexLess(b, a))
    ensures !(LexLess(a, b) && SameBits(a, b))
  {
  }

  lemma LexTransitive(a: seq<octet>, b: seq<octet>, c: seq<octet>)
    requires LexLess(a, b) || SameBits(a, b)
    requires LexLess(b, c) || SameBits(b, c)
    ensures LexLess(a, c) || SameBits(a, c)
  {
    if LexLess(a, b) && LexLess(b, c) {
      var j: nat :| DifferFirst(a, b, j);
      var k: nat :| DifferFirst(b, c, k);
      assert DifferFirst(a, c, if j < k then j else k);
    } else if LexLess(a, b) {
      var j: nat :| DifferFirst(a, b, j);
      assert DifferFirst(a, c, j);
    } else if LexLess(b, c) {
      var k: nat :| DifferFirst(b, c, k);
      assert DifferFirst(a, c, k);
    }
  }

  /** Comparison of octets from the left, a proper prefix being the smaller. */
  function Order(a: seq<octet>, b: seq<octet>): int {
    if a == [] then
      if b == [] then 0 else -1
    else if b == [] then 1
    else if a[0] != b[0] then (a[0] as int) - (b[0] as int)
    else Order(a[1..], b[1..])
  }

  lemma {:induction false} OrderAntisymmetric(a: seq<octet>, b: seq<octet>)
    ensures Order(a, b) > 0 <==> Order(b, a) < 0
    ensures Order(a, b) == 0 <==> a == b
  {
    if a != [] && b != [] {
      assert a == [a[0]] + a[1..] && b == [b[0]] + b[1..];
      if a[0] == b[0] {
        OrderAntisymmetric(a[1..], b[1..]);
      }
    }
  }

  /** The smaller of two fields has the first differing bit clear. */
  lemma {:induction false} FieldOrder(x: nat, y: nat, n: nat) returns (k: nat)
    requires x < y < Pow2(n)
    ensures k < n && ToBits(x, n)[k] == 0 && ToBits(y, n)[k] == 1
    ensures ToBits(x, n)[..k] == ToBits(y, n)[..k]
  {
    if x / 2 == y / 2 {
      k := n - 1;
      assert ToBits(x, n)[..k] == ToBits(x / 2, n - 1);
      assert ToBits(y, n)[..k] == ToBits(y / 2, n - 1);
    } else {
      k := FieldOrder(x / 2, y / 2, n - 1);
      assert ToBits(x, n)[..k] == ToBits(x / 2, n - 1)[..k];
      assert ToBits(y, n)[..k] == ToBits(y / 2, n - 1)[..k];
    }
  }

  lemma BitAtHead(s: seq<octet>, i: nat)
    requires s != []
    ensures BitAt(s, i) == if i < 8 then ToBits(s[0], 8)[i] else BitAt(s[1..], i - 8)
  {
    hide ToBits;
    assert OctetBits(s) == ToBits(s[0], 8) + OctetBits(s[1..]);
  }

  /** Octet order below zero is a first differing bit, for strings without trailing zero octets. */
  lemma {:induction false} OrderIsLex(a: seq<octet>, b: seq<octet>) returns (k: nat)
    requires Stripped(b) == b
    requires Order(a, b) < 0
    ensures DifferFirst(a, b, k)
  {
    hide OctetBits, ToBits, BitAt;
    if a == [] || a[0] < b[0] {
      var x := if a == [] then 0 else a[0];
      forall i: nat ensures a == [] ==> BitAt(a, i) == 0 { EmptyBits(i); }
      if x < b[0] {
        Pow2At8And16();
        k := FieldOrder(x, b[0], 8);
        BitsOfHeads(a, b, x, k);
      } else {
        TailStripped(b);
        var j := OrderIsLex([], b[1..]);
        k := j + 8;
        ShiftDiffer(a, b, j);
      }
    } else {
      TailStripped(b);
      var j := OrderIsLex(a[1..], b[1..]);
      k := j + 8;
      ShiftDiffer(a, b, j);
    }
  }

  lemma EmptyBits(i: nat)
    ensures BitAt([], i) == 0
  {
  }

  /** The tail of a stripped string is stripped; and a leading zero octet is not the last. */
  lemma TailStripped(b: seq<octet>)
    requires b != [] && Stripped(b) == b
    ensures Stripped(b[1..]) == b[1..]
    ensures b[0] == 0 ==> b[1..] != []
  {
    assert b[|b| - 1] != 0;
    if |b| > 1 {
      assert b[1..][|b| - 2] == b[|b| - 1];
    }
  }

  lemma BitsOfHeads(a: seq<octet>, b: seq<octet>, x: octet, k: nat)
    requires b != [] && x == if a == [] then 0 else a[0]
    requires k < 8 && ToBits(x, 8)[k] == 0 && ToBits(b[0], 8)[k] == 1
    requires ToBits(x, 8)[..k] == ToBits(b[0], 8)[..k]
    ensures DifferFirst(a, b, k)
  {
    hide OctetBits, ToBits, BitAt;
    ToBitsOfZero(8);
    forall i: nat | i < 8
      ensures BitAt(a, i) == ToBits(x, 8)[i] && BitAt(b, i) == ToBits(b[0], 8)[i]
    {
      if a == [] { EmptyBits(i); } else { BitAtHead(a, i); }
      BitAtHead(b, i);
    }
    forall i: nat | i < k ensures BitAt(a, i) == BitAt(b, i) {
      assert ToBits(x, 8)[..k][i] == ToBits(b[0], 8)[..k][i];
    }
  }

  lemma ShiftDiffer(a: seq<octet>, b: seq<octet>, j: nat)
    requires b != [] && (if a == [] then b[0] == 0 else a[0] == b[0])
    requires DifferFirst(if a == [] then [] else a[1..], b[1..], j)
    ensures DifferFirst(a, b, j + 8)
  {
    hide OctetBits, ToBits, BitAt;
    ToBitsOfZero(8);
    var tail := if a == [] then [] else a[1..];
    forall i: nat
      ensures i < 8 ==> BitAt(a, i) == BitAt(b, i)
      ensures i >= 8 ==> BitAt(a, i) == BitAt(tail, i - 8) && BitAt(b, i) == BitAt(b[1..], i - 8)
    {
      BitAtHead(b, i);
      if a == [] {
        EmptyBits(i);
        if i >= 8 { EmptyBits(i - 8); }
      } else {
        BitAtHead(a, i);
      }
    }
    forall i: nat | i < j + 8 ensures BitAt(a, i) == BitAt(b, i) {
      if i >= 8 { assert BitAt(tail, i - 8) == BitAt(b[1..], i - 8); }
    }
  }

  /** Stripping zero octets changes no bit of the infinite extension. */
  lemma {:induction false} StrippedBits(s: seq<octet>, i: nat)
    ensures BitAt(Stripped(s), i) == BitAt(s, i)
  {
    hide ToBits;
    if s != [] && s[|s| - 1] == 0 {
      var n := |s| - 1;
      StrippedBits(s[..n], i);
      OctetBitsConcat(s[..n], [0]);
      assert s == s[..n] + [0];
      OneOctet(0);
      ToBitsOfZero(8);
    }
  }

  lemma StrippedTwice(s: seq<octet>)
    ensures Stripped(Stripped(s)) == Stripped(s)
  {
  }

  /** The octet order of the compacted strings is the lexicographic order of the bits. */
  lemma CompactedOrder(a: seq<octet>, b: seq<octet>)
    ensures Order(Stripped(a), Stripped(b)) < 0 <==> LexLess(a, b)
    ensures Order(Stripped(a), Stripped(b)) > 0 <==> LexLess(b, a)
    ensures Order(Stripped(a), Stripped(b)) == 0 <==> SameBits(a, b)
  {
    hide OctetBits, BitAt, Stripped, Order;
    var p, q := Stripped(a), Stripped(b);
    forall i: nat ensures BitAt(p, i) == BitAt(a, i) && BitAt(q, i) == BitAt(b, i) {
      StrippedBits(a, i);
      StrippedBits(b, i);
    }
    StrippedTwice(a);
    StrippedTwice(b);
    OrderAntisymmetric(p, q);
    LexTrichotomy(a, b);
    LexTrichotomy(b, a);
    if Order(p, q) < 0 {
      var k := OrderIsLex(p, q);
      assert DifferFirst(a, b, k);
    } else if Order(p, q) > 0 {
      var k := OrderIsLex(q, p);
      assert DifferFirst(b, a, k);
    } else {
      assert SameBits(a, b);
    }
  }

  /** `memcmp` on two strings of the same length. */
  function Memcmp(a: seq<octet>, b: seq<octet>): int
    requires |a| == |b|
  {
    if a == [] then 0
    else if a[0] != b[0] then (a[0] as int) - (b[0] as int)
    else Memcmp(a[1..], b[1..])
  }

  lemma {:induction false} PrefixThenLength(a: seq<octet>, b: seq<octet>)
    ensures var n := if |a| <= |b| then |a| else |b|;
            var m := Memcmp(a[..n], b[..n]);
            Order(a, b) == if m != 0 then m else if |a| < |b| then -1 else if |a| > |b| then 1 else 0
  {
    if a != [] && b != [] && a[0] == b[0] {
      var n := if |a| <= |b| then |a| else |b|;
      PrefixThenLength(a[1..], b[1..]);
      assert a[..n][1..] == a[1..][..n - 1] && b[..n][1..] == b[1..][..n - 1];
    }
  }

  /**
    `BIT_STRING_compare`: the sign is that of the lexicographic order of the two
    strings extended with zero bits for ever, so 0 means equal up to trailing
    zeros; the last comparison, of unused bits, never decides.
   */
  method Compare(a: BitStr, b: BitStr) returns (ret: int)
    requires a.Valid() && b.Valid()
    ensures ret < 0 <==> LexLess(a.buf, b.buf)
    ensures ret > 0 <==> LexLess(b.buf, a.buf)
    ensures ret == 0 <==> SameBits(a.buf, b.buf)
  {
    hide OctetBits, BitAt, Stripped, Order, Memcmp, TrailingZeros, SameBits, LexLess;
    var ca := Compactify(a);
    var cb := Compactify(b);
    CompactedOrder(a.buf, b.buf);
    PrefixThenLength(ca.buf, cb.buf);
    OrderAntisymmetric(ca.buf, cb.buf);
    var common := if |ca.buf| <= |cb.buf| then |ca.buf| else |cb.buf|;
    ret := Memcmp(ca.buf[..common], cb.buf[..common]);
    if ret == 0 {
      if |ca.buf| < |cb.buf| {
        return -1;
      } else if |ca.buf| > |cb.buf| {
        return 1;
      } else if ca.unused > cb.unused {
        return -1;
      } else if ca.unused < cb.unused {
        return 1;
      }
    }
  }

  // ----- the order on values -----------------------------------------------------------

  /** For values with zero unused bits, the bits compared are those of the value, then zeros. */
  lemma CleanBits(v: BitStr, i: nat)
    requires v.Valid() && v.Clean()
    ensures BitAt(v.buf, i) == if i < |v.Bits()| then v.Bits()[i] else 0
  {
    hide OctetBits;
    assert OctetBits(v.buf) == v.Bits() + Zeros(v.unused);
  }

  /** A value of exactly these bits, the unused ones zero. */
  function OfBits(b: seq<bit>): (v: BitStr) {
    BitStr(Pack(b), (8 - |b| % 8) % 8)
  }

  lemma BitsOfBits(b: seq<bit>)
    ensures OfBits(b).Valid() && OfBits(b).Bits() == b && OfBits(b).Clean()
  {
    hide Pack, OctetBits;
    OctetBitsOfPack(b);
    var z := (8 - |b| % 8) % 8;
    assert (b + Zeros(z))[..|b|] == b;
    assert OfBits(b).buf == [] ==> b == [];
  }

  lemma OfBitsBits(v: BitStr)
    requires v.Valid() && v.Clean()
    ensures OfBits(v.Bits()) == v
  {
    hide Pack, OctetBits;
    var b := v.Bits();
    assert |b| + v.unused == 8 * |v.buf|;
    PackOctetBits(v.buf);
    PackPadded(b, v.unused);
  }

  /** The value of a value's own bits is that value exactly when its unused bits are zero. */
  lemma OfBitsRestores(v: BitStr)
    requires v.Valid()
    ensures OfBits(v.Bits()).Bits() == v.Bits()
    ensures OfBits(v.Bits()) == v <==> v.Clean()
  {
    hide OctetBits, OfBits;
    BitsOfBits(v.Bits());
    if v.Clean() { OfBitsBits(v); }
  }

  /** Values that stand for the same bits compare equal exactly when they are the same value. */
  lemma EqualBitsCompare(v: BitStr, w: BitStr)
    requires v.Valid() && w.Valid() && v.Bits() == w.Bits()
    ensures SameBits(v.buf, w.buf) <==> v == w
  {
    hide OctetBits;
    assert |v.buf| == |w.buf| && v.unused == w.unused;
    if SameBits(v.buf, w.buf) {
      forall i | 0 <= i < 8 * |v.buf| ensures OctetBits(v.buf)[i] == OctetBits(w.buf)[i] {
        assert BitAt(v.buf, i) == BitAt(w.buf, i);
      }
      assert OctetBits(v.buf) == OctetBits(w.buf);
      PackOctetBits(v.buf);
      PackOctetBits(w.buf);
    }
  }

  /** A value compares equal to a clean value of its own bits exactly when its unused bits are zero. */
  lemma DirtyBitsCount(v: BitStr)
    requires v.Valid()
    ensures SameBits(v.buf, OfBits(v.Bits()).buf) <==> v.Clean()
  {
    hide OctetBits, OfBits, SameBits;
    BitsOfBits(v.Bits());
    OfBitsRestores(v);
    EqualBitsCompare(v, OfBits(v.Bits()));
  }

  /** For instance: one significant zero bit, and a stray one behind it. */
  lemma StrayBit()
    ensures BitStr([0x01], 7).Valid() && BitStr([0x00], 7).Valid()
    ensures BitStr([0x01], 7).Bits() == BitStr([0x00], 7).Bits()
    ensures !SameBits([0x01], [0x00])
  {
    OneOctet(1);
    OneOctet(0);
    assert ToBits(1, 8) == ToBits(0, 7) + [1];
    assert ToBits(0, 8) == ToBits(0, 7) + [0];
    ToBitsOfZero(7);
    assert OctetBits([0x01])[..1] == [0] == OctetBits([0x00])[..1];
    EqualBitsCompare(BitStr([0x01], 7), BitStr([0x00], 7));
  }
}
