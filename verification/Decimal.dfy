/** ASCII text: digits of base 10 and 16, maximal digit runs, decimal notation, characters of markup. */
module Decimal {
  import opened Octets

  type text = seq<octet>

  const MINUS: octet := 0x2d
  const PLUS: octet := 0x2b
  const SLASH: octet := 0x2f
  const LESS: octet := 0x3c
  const GREATER: octet := 0x3e

  predicate IsDigit(c: octet) {
    0x30 <= c <= 0x39
  }

  /** White space between tokens (section 8.1.4 of ITU-T X.693). */
  predicate IsSpace(c: octet) {
    c == 0x09 || c == 0x0a || c == 0x0d || c == 0x20
  }

  /** The value of a hexadecimal digit of either case. */
  function DigitValue(c: octet): (v: Option<nat>)
    ensures v.Some? ==> v.value < 16
  {
    if 0x30 <= c <= 0x39 then Some(c - 0x30)
    else if 0x41 <= c <= 0x46 then Some(c - 0x41 + 10)
    else if 0x61 <= c <= 0x66 then Some(c - 0x61 + 10)
    else None
  }

  const UPPER_DIGITS: string := "0123456789ABCDEF"
  const LOWER_DIGITS: string := "0123456789abcdef"

  /** The character is the hexadecimal digit of this value, in either case. */
  predicate Nibble(c: octet, v: int) {
    0 <= v < 16 && (c == UPPER_DIGITS[v] as int || c == LOWER_DIGITS[v] as int)
  }

  lemma NibbleIs(c: octet, v: nat)
    ensures Nibble(c, v) <==> DigitValue(c) == Some(v)
  {
    if v < 16 { DigitsAt(v); }
  }

  lemma DigitsAt(v: nat)
    requires v < 16
    ensures UPPER_DIGITS[v] as int == if v < 10 then 0x30 + v else 0x41 + v - 10
    ensures LOWER_DIGITS[v] as int == if v < 10 then 0x30 + v else 0x61 + v - 10
  {
  }

  /** `h2c` */
  function HexDigit(n: nat): (c: octet)
    requires n < 16
  {
    if n < 10 then 0x30 + n else 0x41 + (n - 10)
  }

  /** Digits are printed in upper case. */
  lemma HexDigitIs(n: nat)
    requires n < 16
    ensures HexDigit(n) == UPPER_DIGITS[n] as int && Nibble(HexDigit(n), n)
  {
    DigitsAt(n);
  }

  function HexPair(o: octet): (t: text)
    ensures |t| == 2
  {
    [HexDigit(o / 16), HexDigit(o % 16)]
  }

  /** Two hexadecimal digits into a buffer. */
  method PutPair(scratch: array<octet>, p: nat, o: octet)
    requires p + 2 <= scratch.Length
    modifies scratch
    ensures scratch[..p + 2] == old(scratch[..p]) + HexPair(o)
  {
    scratch[p] := HexDigit(o / 16);
    scratch[p + 1] := HexDigit(o % 16);
  }

  predicate AllDigits(s: text) {
    forall i :: 0 <= i < |s| ==> IsDigit(s[i])
  }

  /** Length of the longest prefix made of digits. */
  function DigitRun(s: text): (n: nat)
    ensures n <= |s| && AllDigits(s[..n])
    ensures n < |s| ==> !IsDigit(s[n])
  {
    if s == [] || !IsDigit(s[0]) then 0
    else
      var k := 1 + DigitRun(s[1..]);
      assert forall i :: 0 < i < k ==> s[i] == s[1..][i - 1];
      k
  }

  lemma {:induction false} DigitRunIs(s: text, n: nat)
    requires n <= |s| && AllDigits(s[..n])
    requires n < |s| ==> !IsDigit(s[n])
    ensures DigitRun(s) == n
  {
    if n > 0 {
      assert s[0] == s[..n][0];
      assert AllDigits(s[1..][..n - 1]) by {
        assert forall i :: 0 <= i < n - 1 ==> s[1..][i] == s[..n][i + 1];
      }
      DigitRunIs(s[1..], n - 1);
    }
  }

  /** The number a digit string denotes. */
  function NumVal(s: text): (v: int)
    requires AllDigits(s)
    ensures v >= 0
  {
    if s == [] then 0 else NumVal(s[..|s| - 1]) * 10 + (s[|s| - 1] - 0x30)
  }

  lemma NumValSnoc(s: text, c: octet)
    requires AllDigits(s) && IsDigit(c)
    ensures AllDigits(s + [c]) && NumVal(s + [c]) == NumVal(s) * 10 + (c - 0x30)
  {
    assert (s + [c])[..|s|] == s;
  }

  /** Appending digits never makes a numeral smaller. */
  lemma {:induction false} NumValPrefix(s: text, j: nat)
    requires AllDigits(s) && j <= |s|
    ensures NumVal(s[..j]) <= NumVal(s)
  {
    if j < |s| {
      var t := s[..|s| - 1];
      assert t[..j] == s[..j];
      NumValPrefix(t, j);
    } else {
      assert s[..j] == s;
    }
  }

  /** What `%ju` prints. */
  function Dec(n: nat): (s: text)
    ensures s != [] && AllDigits(s)
  {
    if n < 10 then [0x30 + n] else Dec(n / 10) + [0x30 + n % 10]
  }

  lemma {:induction false} NumValDec(n: nat)
    ensures NumVal(Dec(n)) == n
  {
    if n < 10 {
      assert Dec(n)[..0] == [];
    } else {
      NumValDec(n / 10);
      NumValSnoc(Dec(n / 10), 0x30 + n % 10);
    }
  }

  /** What `%jd` prints. */
  function SignedDec(v: int): (s: text)
    ensures s != []
  {
    if v < 0 then [MINUS] + Dec(-v) else Dec(v)
  }
}
