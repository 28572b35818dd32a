/**
  INTEGER as a growable two's complement buffer: DER canonicalisation and the
  conversions between the buffer and the 64-bit native types.
 */
module Integer {
  import opened Octets

  // ----- canonical contents -------------------------------------------------

  /** The first of two octets is superfluous: nine equal leading bits. */
  predicate Superfluous(first: octet, second: octet) {
    || (first == 0x00 && second < 0x80)
    || (first == 0xff && second >= 0x80)
  }

  /** Section 8.3.2 of ITU-T X.690. */
  predicate Minimal(s: seq<octet>) {
    && s != []
    && (|s| >= 2 ==> !Superfluous(s[0], s[1]))
  }

  lemma DropSuperfluous(s: seq<octet>)
    requires |s| >= 2 && Superfluous(s[0], s[1])
    ensures Signed(s[1..]) == Signed(s)
  {
    UnsignedCons(s);
  }

  /** A minimal string of n >= 2 octets lies outside the range of n - 1 octets. */
  lemma MinimalIsLarge(s: seq<octet>)
    requires Minimal(s) && |s| >= 2
    ensures Signed(s) < -128 * Pow256(|s| - 2) || Signed(s) >= 128 * Pow256(|s| - 2)
  {
    hide Unsigned, Pow256;
    var p, tail := Pow256(|s| - 2), s[1..];
    var rest := Unsigned(tail[1..]);
    UnsignedCons(s);
    UnsignedCons(tail);
    UnsignedBound(tail[1..]);
    TwoPowers(|s| - 2);
    OutOfShorter(s[0], s[1], p, rest);
  }

  lemma TwoPowers(n: nat)
    ensures Pow256(n + 1) == 256 * Pow256(n) && Pow256(n + 2) == 65536 * Pow256(n)
  {
  }

  /** Two leading octets neither of which is superfluous, as places of a number. */
  lemma OutOfShorter(first: octet, second: octet, p: nat, rest: nat)
    requires rest < p && !Superfluous(first, second)
    ensures var v := first * (256 * p) + (second * p + rest) - if first < 128 then 0 else 65536 * p;
            v < -128 * p || v >= 128 * p
  {
    if first == 0 {
      MulMonotone(128, second, p);
    } else if first < 128 {
      MulMonotone(1, first, 256 * p);
      MulMonotone(0, second, p);
    } else if first == 255 {
      MulMonotone(second, 127, p);
    } else {
      MulMonotone(first, 254, 256 * p);
      MulMonotone(second, 255, p);
    }
  }

  /** Minimal contents are determined by the value they encode. */
  lemma MinimalUnique(a: seq<octet>, b: seq<octet>)
    requires Minimal(a) && Minimal(b)
    requires Signed(a) == Signed(b)
    ensures a == b
  {
    MinimalLength(a, b);
    MinimalLength(b, a);
    SignedBound(a);
    SignedBound(b);
    UnsignedInjective(a, b);
  }

  /** The canonical contents octets of a value, written independently of the runtime's scan. */
  function Der(v: int): (s: seq<octet>)
    ensures s != []
    decreases if v < 0 then -v else v
  {
    if -128 <= v < 128 then [v % 256] else Der(v / 256) + [v % 256]
  }

  lemma {:induction false} DerIsCanonical(v: int)
    ensures Minimal(Der(v)) && Signed(Der(v)) == v
    decreases if v < 0 then -v else v
  {
    if -128 <= v < 128 {
      var s := Der(v);
      assert s[..0] == [] && Unsigned(s) == v % 256;
      assert Pow256(1) == 256;
    } else {
      var head := Der(v / 256);
      DerIsCanonical(v / 256);
      SignedSnoc(head, v % 256);
      if |head| == 1 {
        assert head[0] == (v / 256) % 256;
      }
    }
  }

  lemma SignedSnoc(s: seq<octet>, o: octet)
    requires s != []
    ensures Signed(s + [o]) == Signed(s) * 256 + o
  {
    assert (s + [o])[..|s|] == s;
  }

  /** Canonical contents are exactly the minimal ones. */
  lemma MinimalIsDer(s: seq<octet>)
    requires Minimal(s)
    ensures s == Der(Signed(s))
  {
    DerIsCanonical(Signed(s));
    MinimalUnique(s, Der(Signed(s)));
  }

  lemma MinimalLength(a: seq<octet>, b: seq<octet>)
    requires Minimal(a) && Minimal(b)
    requires Signed(a) == Signed(b)
    ensures |a| >= |b|
  {
    if |a| < |b| {
      SignedBound(a);
      MinimalIsLarge(b);
      Pow256Monotone(|a| - 1, |b| - 2);
    }
  }

  /** Eight octets always fit intmax_t; more than eight, when minimal, never do. */
  lemma MinimalFits(s: seq<octet>)
    requires s != [] && (|s| > 8 ==> Minimal(s))
    ensures FitsImax(Signed(s)) <==> |s| <= 8
  {
    Pow256At7And8();
    SignedBound(s);
    if |s| <= 8 {
      Pow256Monotone(|s| - 1, 7);
    } else {
      MinimalIsLarge(s);
      Pow256Monotone(7, |s| - 2);
    }
  }

  lemma DropLeadingZero(s: seq<octet>)
    requires s != [] && s[0] == 0
    ensures Unsigned(s[1..]) == Unsigned(s)
  {
    UnsignedCons(s);
  }

  lemma LargeUnsigned(s: seq<octet>)
    requires |s| > 8 && s[0] != 0
    ensures Unsigned(s) > UMAX_MAX
  {
    UnsignedCons(s);
    Pow256At7And8();
    Pow256Monotone(8, |s| - 1);
    MulMonotone(1, s[0], Pow256(|s| - 1));
  }

  lemma SmallUnsigned(s: seq<octet>)
    requires |s| <= 8
    ensures Unsigned(s) <= UMAX_MAX
  {
    UnsignedBound(s);
    Pow256At7And8();
    Pow256Monotone(|s|, 8);
  }

  lemma SignedOfWidth(u: nat, n: nat)
    requires n > 0 && u < Pow256(n)
    ensures Signed(OctetsOf(u, n)) == if u < 128 * Pow256(n - 1) then u else u - Pow256(n)
  {
    UnsignedOctetsOf(u, n);
    SignedBound(OctetsOf(u, n));
  }

  /** Eight octets holding a 64-bit pattern read back as its signed meaning. */
  lemma SignedOfPattern(u: int)
    requires FitsUmax(u)
    ensures Signed(OctetsOf(u, 8)) == ToImax(u)
  {
    hide Signed, OctetsOf, Pow256;
    Pow256At7And8();
    SignedOfWidth(u, 8);
  }

  /** The native value of the contents, by the conversion that the field's signedness selects. */
  function Native(contents: seq<octet>, unsigned: bool): Option<int> {
    if unsigned then
      if FitsUmax(Unsigned(contents)) then Some(Unsigned(contents)) else None
    else
      if FitsImax(Signed(contents)) then Some(Signed(contents)) else None
  }

  // ----- the structure ------------------------------------------------------

  /** `INTEGER_t`; the buffer may be absent, and then the size is 0. */
  class IntegerT {
    var buf: array?<octet>
    var size: nat

    predicate Valid()
      reads this
    {
      if buf == null then size == 0 else size <= buf.Length
    }

    function Contents(): (s: seq<octet>)
      requires Valid() && buf != null
      reads this, buf
    {
      buf[..size]
    }

    constructor ()
      ensures Valid() && buf == null && size == 0
    {
      buf := null;
      size := 0;
    }
  }

  /** `INTEGER_encode_der`: the contents octets handed to the primitive encoder. */
  method EncodeDer(st: IntegerT) returns (contents: seq<octet>)
    requires st.Valid()
    ensures st.size == 0 ==> contents == []
    ensures st.size > 0 ==> contents == Der(Signed(st.Contents()))
  {
    if st.buf == null { return []; }
    var b := SkipSuperfluous(st);
    contents := st.buf[b..st.size];
    if st.size > 0 { MinimalIsDer(contents); }
  }

  /** The scan for superfluous leading octets, shared by the DER encoder and `asn_INTEGER2imax`. */
  method SkipSuperfluous(st: IntegerT) returns (b: nat)
    requires st.Valid() && st.buf != null
    ensures st.size == 0 ==> b == 0
    ensures st.size > 0 ==>
              && b < st.size
              && Minimal(st.buf[b..st.size])
              && Signed(st.buf[b..st.size]) == Signed(st.Contents())
  {
    b := 0;
    var end1 := st.size - 1;
    while b < end1
      invariant 0 <= b
      invariant st.size > 0 ==> b <= end1 && Signed(st.buf[b..st.size]) == Signed(st.Contents())
      invariant st.size == 0 ==> b == 0
    {
      ghost var rest := st.buf[b..st.size];
      if st.buf[b] == 0x00 {
        if st.buf[b + 1] >= 0x80 { break; }
      } else if st.buf[b] == 0xff {
        if st.buf[b + 1] < 0x80 { break; }
      } else {
        break;
      }
      DropSuperfluous(rest);
      assert rest[1..] == st.buf[b + 1..st.size];
      b := b + 1;
    }
  }

  /** `asn__integer_convert`: shift-and-or with 64-bit wrap-around, sign-initialised. */
  method IntegerConvert(s: seq<octet>) returns (value: int)
    requires 1 <= |s| <= 8
    ensures value == Signed(s)
  {
    Pow256At7And8();
    var acc: int := if s[0] >= 128 then UMAX_MAX else 0;
    var b := 0;
    while b < |s|
      invariant 0 <= b <= |s|
      invariant FitsUmax(acc)
      invariant s[0] < 128 ==> acc == Unsigned(s[..b])
      invariant s[0] >= 128 ==> acc == TWO64 - Pow256(b) + Unsigned(s[..b])
    {
      assert s[..b + 1][..b] == s[..b];
      UnsignedBound(s[..b + 1]);
      Pow256Monotone(b + 1, 8);
      ghost var before := acc;
      acc := (acc * 256) % TWO64 + s[b];
      if s[0] >= 128 {
        assert acc == WrapShift(before, Pow256(b + 1), Unsigned(s[..b + 1]), s[b]);
      }
      b := b + 1;
    }
    assert s[..b] == s;
    UnsignedBound(s);
    Pow256Monotone(|s|, 8);
    SignedBound(s);
    Pow256Monotone(|s| - 1, 7);
    value := if acc <= IMAX_MAX then acc else acc - TWO64;
  }

  /** Shifting in an octet below the sign extension keeps the sign extension. */
  ghost function WrapShift(acc: int, p: int, u: int, o: octet): (r: int)
    requires 0 <= u < p <= TWO64
    requires acc * 256 == TWO64 * 256 - p + u - o
    ensures r == (acc * 256) % TWO64 + o
    ensures r == TWO64 - p + u
  {
    assert acc * 256 == 255 * TWO64 + (TWO64 - p + u - o);
    assert 0 <= TWO64 - p + u - o;
    TWO64 - p + u
  }

  /** `asn_INTEGER2imax`: None is the error return -1. */
  method ToIntmax(st: IntegerT) returns (r: Option<int>)
    requires st.Valid()
    ensures st.buf == null ==> r == None
    ensures st.buf != null ==>
              var v := Signed(st.Contents());
              r == if FitsImax(v) then Some(v) else None
  {
    if st.buf == null { return None; }
    var b := 0;
    if st.size > 8 {
      b := SkipSuperfluous(st);
      MinimalFits(st.buf[b..st.size]);
      if st.size - b > 8 { return None; }
    }
    if st.size == b { return Some(0); }
    MinimalFits(st.buf[b..st.size]);
    var v := IntegerConvert(st.buf[b..st.size]);
    r := Some(v);
  }

  /** `asn_INTEGER2umax`: the sign bit is not looked at. */
  method ToUintmax(st: IntegerT) returns (r: Option<int>)
    requires st.Valid()
    ensures st.buf == null ==> r == None
    ensures st.buf != null ==>
              var v := Unsigned(st.Contents());
              r == if FitsUmax(v) then Some(v) else None
  {
    if st.buf == null { return None; }
    var b, size := 0, st.size;
    while size > 8
      invariant 0 <= size && 0 <= b && b + size == st.size
      invariant Unsigned(st.buf[b..st.size]) == Unsigned(st.Contents())
    {
      ghost var rest := st.buf[b..st.size];
      if st.buf[b] != 0 {
        LargeUnsigned(rest);
        return None;
      }
      DropLeadingZero(rest);
      assert rest[1..] == st.buf[b + 1..st.size];
      b, size := b + 1, size - 1;
    }
    var value := 0;
    ghost var rest := st.buf[b..st.size];
    SmallUnsigned(rest);
    var start := b;
    while b < st.size
      invariant start <= b <= st.size
      invariant value == Unsigned(rest[..b - start])
    {
      assert rest[..b + 1 - start][..b - start] == rest[..b - start];
      SmallUnsigned(rest[..b + 1 - start]);
      value := (value * 256) % TWO64 + st.buf[b];
      b := b + 1;
    }
    assert rest[..b - start] == rest;
    r := Some(value);
  }

  /** `asn_imax2INTEGER`: walks the native value from its most significant octet down. */
  method FromIntmax(st: IntegerT, value: int)
    requires FitsImax(value)
    modifies st
    ensures st.Valid() && st.buf != null && fresh(st.buf)
    ensures st.Contents() == Der(value)
  {
    hide OctetsOf, Signed, Der;
    var native := OctetsOf(ToUmax(value), 8);
    SignedOfPattern(ToUmax(value));
    assert native[0..] == native;
    var p := 0;
    while p != 7
      invariant 0 <= p <= 7
      invariant Signed(native[p..]) == value
      decreases 7 - p
    {
      if native[p] == 0x00 {
        if native[p + 1] >= 0x80 { break; }
      } else if native[p] == 0xff {
        if native[p + 1] < 0x80 { break; }
      } else {
        break;
      }
      DropSuperfluous(native[p..]);
      assert native[p..][1..] == native[p + 1..];
      p := p + 1;
    }
    ghost var body := native[p..];
    var buf := new octet[8](_ => 0);
    var bp, start := 0, p;
    while p != 8
      invariant start <= p <= 8 && bp == p - start
      invariant buf[..bp] == body[..bp]
      decreases 8 - p
    {
      buf[bp] := native[p];
      bp, p := bp + 1, p + 1;
    }
    assert body[..bp] == body;
    MinimalIsDer(body);
    st.buf := buf;
    st.size := bp;
  }

  /** `asn_umax2INTEGER`: values above INTMAX_MAX get a leading zero octet. */
  method FromUintmax(st: IntegerT, value: int)
    requires FitsUmax(value)
    modifies st
    ensures st.Valid() && st.buf != null && fresh(st.buf)
    ensures st.Contents() == Der(value) && Unsigned(st.Contents()) == value
  {
    if value <= IMAX_MAX {
      FromIntmax(st, value);
      DerIsCanonical(value);
      SignedBound(st.Contents());
      return;
    }
    var buf := new octet[9](_ => 0);
    var b, shr := 1, 7;
    while b < 9
      invariant 1 <= b <= 9 && shr == 8 - b
      invariant buf[0] == 0
      invariant forall i :: 1 <= i < b ==> buf[i] == OctetsOf(value, 8)[i - 1]
    {
      OctetsOfAt(value, 8, b - 1);
      buf[b] := ShiftOctets(value, shr) % 256;
      b, shr := b + 1, shr - 1;
    }
    LeadingZeroIsDer(value, buf[..]);
    st.buf := buf;
    st.size := 9;
    assert buf[..9] == buf[..];
  }

  lemma LeadingZeroIsDer(value: int, s: seq<octet>)
    requires IMAX_MAX < value <= UMAX_MAX
    requires |s| == 9 && s[0] == 0 && s[1..] == OctetsOf(value, 8)
    ensures s == Der(value) && Unsigned(s) == value
  {
    Pow256At7And8();
    UnsignedOctetsOf(value, 8);
    SignedBound(s[1..]);
    DropLeadingZero(s);
    MinimalIsDer(s);
  }
}
