/**
  Octets and the two ways the runtime reads a string of them as a number:
  unsigned, and two's complement with the sign in the first bit
  (section 8.3 of ITU-T X.690).
 */
module Octets {
  datatype Option<+T> = None | Some(value: T) {
    predicate IsFailure() {
      None?
    }

    function PropagateFailure<U>(): Option<U>
      requires None?
    {
      None
    }

    function Extract(): T
      requires Some?
    {
      value
    }
  }

  type octet = x: int | 0 <= x < 256

  const IMAX_MIN: int := -0x8000_0000_0000_0000
  const IMAX_MAX: int := 0x7fff_ffff_ffff_ffff
  const UMAX_MAX: int := 0xffff_ffff_ffff_ffff
  const TWO64: int := 0x1_0000_0000_0000_0000

  /** The value fits intmax_t, which is also `long` on the modelled platform. */
  predicate FitsImax(v: int) {
    IMAX_MIN <= v <= IMAX_MAX
  }

  predicate FitsUmax(v: int) {
    0 <= v <= UMAX_MAX
  }

  /** The conversion of any integer to uintmax_t. */
  function ToUmax(v: int): (u: nat)
    ensures FitsUmax(u)
  {
    v % TWO64
  }

  /** The conversion of any integer to intmax_t: 64-bit wrap-around. */
  function ToImax(v: int): (i: int)
    ensures FitsImax(i)
    ensures ToUmax(i) == ToUmax(v)
  {
    var u := v % TWO64;
    if u <= IMAX_MAX then u else u - TWO64
  }

  lemma ToImaxFits(v: int)
    requires FitsImax(v)
    ensures ToImax(v) == v
  {
  }

  lemma ToUmaxFits(v: int)
    requires FitsUmax(v)
    ensures ToUmax(v) == v
  {
  }

  function Pow256(n: nat): (p: nat)
    ensures p > 0
  {
    if n == 0 then 1 else 256 * Pow256(n - 1)
  }

  lemma Pow256At7And8()
    ensures Pow256(7) == 0x100_0000_0000_0000
    ensures Pow256(8) == TWO64
  {
    assert Pow256(4) == 0x1_0000_0000;
  }

  lemma Pow256Monotone(m: nat, n: nat)
    requires m <= n
    ensures Pow256(m) <= Pow256(n)
  {
  }

  /** The unsigned value, most significant octet first. */
  function Unsigned(s: seq<octet>): nat {
    if s == [] then 0 else Unsigned(s[..|s| - 1]) * 256 + s[|s| - 1]
  }

  /** The two's complement value. The empty string reads as 0, as the runtime reads it. */
  function Signed(s: seq<octet>): int {
    if s == [] then 0
    else if s[0] < 128 then Unsigned(s)
    else Unsigned(s) - Pow256(|s|)
  }

  lemma {:induction false} UnsignedCons(s: seq<octet>)
    requires s != []
    ensures Unsigned(s) == s[0] * Pow256(|s| - 1) + Unsigned(s[1..])
  {
    if |s| == 1 {
      assert s[..0] == [] && s[1..] == [];
    } else {
      var t := s[..|s| - 1];
      UnsignedCons(t);
      assert t[1..] == s[1..][..|s| - 2];
    }
  }

  lemma {:induction false} UnsignedBound(s: seq<octet>)
    ensures Unsigned(s) < Pow256(|s|)
  {
    if s != [] {
      UnsignedBound(s[..|s| - 1]);
    }
  }

  lemma {:induction false} UnsignedInjective(a: seq<octet>, b: seq<octet>)
    requires |a| == |b|
    requires Unsigned(a) == Unsigned(b)
    ensures a == b
  {
    if a != [] {
      var n := |a| - 1;
      UnsignedInjective(a[..n], b[..n]);
      assert a == a[..n] + [a[n]] && b == b[..n] + [b[n]];
    }
  }

  lemma MulMonotone(x: int, y: int, p: nat)
    requires x <= y
    ensures x * p <= y * p
  {
  }

  lemma Distribute(a: int, x: int, y: int)
    ensures a * (x + y) == a * x + a * y
  {
  }

  lemma Associate(a: int, b: int, c: int)
    ensures a * (b * c) == (a * b) * c
  {
  }

  /** A string of n octets is worth at least -128*256^(n-1) and less than 128*256^(n-1). */
  lemma SignedBound(s: seq<octet>)
    requires s != []
    ensures -128 * Pow256(|s| - 1) <= Signed(s) < 128 * Pow256(|s| - 1)
    ensures s[0] < 128 <==> Signed(s) >= 0
  {
    UnsignedCons(s);
    UnsignedBound(s[1..]);
    UnsignedBound(s);
  }

  /** The low n octets of a natural number, most significant first. */
  function OctetsOf(v: nat, n: nat): (s: seq<octet>)
    ensures |s| == n
  {
    if n == 0 then [] else OctetsOf(v / 256, n - 1) + [v % 256]
  }

  lemma {:induction false} UnsignedOctetsOf(v: nat, n: nat)
    requires v < Pow256(n)
    ensures Unsigned(OctetsOf(v, n)) == v
  {
    if n > 0 {
      UnsignedOctetsOf(v / 256, n - 1);
      var s := OctetsOf(v, n);
      assert s[..n - 1] == OctetsOf(v / 256, n - 1);
    }
  }

  /** `v >> 8*n` */
  function ShiftOctets(v: nat, n: nat): nat {
    if n == 0 then v else ShiftOctets(v / 256, n - 1)
  }

  lemma {:induction false} ShiftOctetsNext(v: nat, n: nat)
    ensures ShiftOctets(v, n) / 256 == ShiftOctets(v, n + 1)
  {
    if n > 0 {
      ShiftOctetsNext(v / 256, n - 1);
    }
  }

  lemma {:induction false} ShiftOctetsIsZero(v: nat, n: nat)
    ensures ShiftOctets(v, n) == 0 <==> v < Pow256(n)
  {
    if n > 0 {
      ShiftOctetsIsZero(v / 256, n - 1);
    }
  }

  /** Octet i is what shifting right by 8*(n-1-i) and truncating leaves. */
  lemma {:induction false} OctetsOfAt(v: nat, n: nat, i: nat)
    requires i < n
    ensures OctetsOf(v, n)[i] == ShiftOctets(v, n - 1 - i) % 256
  {
    if i < n - 1 {
      OctetsOfAt(v / 256, n - 1, i);
    }
  }

  /** Pieces put together. */
  function Join(pieces: seq<seq<octet>>): seq<octet> {
    if pieces == [] then [] else pieces[0] + Join(pieces[1..])
  }

  lemma Associative<T>(a: seq<T>, b: seq<T>, c: seq<T>)
    ensures a + (b + c) == (a + b) + c
  {
  }

  /** The first element and the rest of a concatenation. */
  lemma FirstOfConcat<T>(a: seq<T>, b: seq<T>)
    requires a != []
    ensures (a + b)[0] == a[0] && (a + b)[1..] == a[1..] + b
  {
  }

  lemma PrefixOfConcat<T>(a: seq<T>, b: seq<T>, n: nat)
    requires n <= |a|
    ensures (a + b)[..n] == a[..n] && (a + b)[n..] == a[n..] + b
  {
  }

  lemma SliceSplit<T>(s: seq<T>, from: nat, mid: nat, to: nat)
    requires from <= mid <= to <= |s|
    ensures s[from..to] == s[from..mid] + s[mid..to]
  {
  }

  lemma DropTwice<T>(s: seq<T>, m: nat, n: nat)
    requires m + n <= |s|
    ensures s[m..][n..] == s[m + n..]
  {
  }

  lemma DropLast<T>(a: seq<T>, b: seq<T>, all: seq<T>, x: T)
    requires b != [] && a + b == all + [x]
    ensures a + b[..|b| - 1] == all
  {
    assert (a + b)[..|all|] == (all + [x])[..|all|];
  }

  lemma Reassociate<T>(a: seq<T>, b: seq<T>, c: seq<T>, d: seq<T>)
    ensures a + (b + (c + d)) == a + b + c + d
    ensures a + (b + (c + d)) == a + ((b + c) + d)
  {
  }
}
