/**
  `asn_strtoimax_lim` and `asn_strtoumax_lim`: bounded decimal parsers that
  report where they stopped.
 */
module Strtox {
  import opened Octets
  import opened Decimal

  /**
    The result codes with the values that go with them. `Undefined` stands for
    a run that multiplies a signed value out of its 64-bit range, which C does
    not define.
   */
  datatype Result =
    | Parsed(value: int, end: nat, extra: bool)
    | ExpectMore(end: nat)
    | Invalid
    | OutOfRange(end: nat)
    | Undefined

  predicate Fits(v: int, unsigned: bool) {
    if unsigned then FitsUmax(v) else FitsImax(v)
  }

  /** Digit `at` is the first with which the numeral leaves the range of the type. */
  predicate FirstMisfit(digits: text, at: int, negative: bool, unsigned: bool)
    requires AllDigits(digits)
  {
    && 0 <= at < |digits|
    && Fits(Value(digits[..at], negative), unsigned)
    && !Fits(Value(digits[..at + 1], negative), unsigned)
  }

  function Value(digits: text, negative: bool): int
    requires AllDigits(digits)
  {
    if negative then -NumVal(digits) else NumVal(digits)
  }

  /** Length of an optional sign. */
  function SignLength(str: text): (k: nat)
    ensures k <= |str|
  {
    if str != [] && (str[0] == MINUS || str[0] == PLUS) then 1 else 0
  }

  function Negative(str: text): bool {
    str != [] && str[0] == MINUS
  }

  /** The digits a parser reads: the longest run after the sign. */
  function Digits(str: text): (d: text)
    ensures AllDigits(d) && SignLength(str) + |d| <= |str|
  {
    var body := str[SignLength(str)..];
    body[..DigitRun(body)]
  }

  /**
    A negative numeral that goes on after a proper prefix already worth
    9223372036854775800 to 9223372036854775808: the case the signed parser
    does not guard.
   */
  predicate RunsPastBoundary(str: text) {
    && Negative(str)
    && exists j | 0 <= j < |Digits(str)| ::
         IMAX_MAX - IMAX_MAX % 10 <= NumVal(Digits(str)[..j]) <= -IMAX_MIN
  }

  /** One step of a digit loop: either the run has ended or its value grows by one digit. */
  lemma NextDigit(str: text, p: nat)
    requires p < |str|
    requires SignLength(str) <= p <= SignLength(str) + |Digits(str)|
    ensures var n := p - SignLength(str);
            if IsDigit(str[p]) then
              && n < |Digits(str)|
              && NumVal(Digits(str)[..n + 1]) == NumVal(Digits(str)[..n]) * 10 + (str[p] - 0x30)
              && NumVal(Digits(str)[..n + 1]) <= NumVal(Digits(str))
            else
              Digits(str)[..n] == Digits(str)
  {
    var k, digits := SignLength(str), Digits(str);
    var n := p - k;
    assert str[k..][n] == str[p];
    if IsDigit(str[p]) {
      assert n < |digits| && digits[n] == str[p];
      assert digits[..n + 1] == digits[..n] + [str[p]];
      NumValSnoc(digits[..n], str[p]);
      NumValPrefix(digits, n + 1);
    } else {
      assert n == |digits|;
    }
  }

  /** `asn_strtoumax_lim` on the text from `str` up to `*end`. */
  method StrtoUmax(str: text) returns (r: Result)
    ensures str == [] || Negative(str) ==> r == Invalid
    ensures str != [] && !Negative(str) ==>
              var k, digits := SignLength(str), Digits(str);
              if k == |str| then r == ExpectMore(k)
              else if FitsUmax(NumVal(digits)) then r == Parsed(NumVal(digits), k + |digits|, k + |digits| < |str|)
              else r.OutOfRange? && FirstMisfit(digits, r.end - k, false, true)
  {
    assert Digits(str)[..0] == [] && NumVal([]) == 0;
    hide NumVal, DigitRun, Digits;
    if |str| == 0 { return Invalid; }
    var upperBoundary, lastDigitMax := UMAX_MAX / 10, UMAX_MAX % 10;
    var p := 0;
    if str[0] == MINUS { return Invalid; }
    if str[0] == PLUS {
      p := 1;
      if p >= |str| { return ExpectMore(p); }
    }
    ghost var k, digits := p, Digits(str);
    var value := 0;
    while p < |str|
      invariant k <= p <= k + |digits|
      invariant value == NumVal(digits[..p - k]) && FitsUmax(value)
    {
      var c := str[p];
      NextDigit(str, p);
      if !IsDigit(c) {
        return Parsed(value, p, true);
      }
      var d := c - 0x30;
      if value < upperBoundary || (value == upperBoundary && d <= lastDigitMax) {
        value := value * 10 + d;
      } else {
        return OutOfRange(p);
      }
      p := p + 1;
    }
    assert digits[..p - k] == digits;
    r := Parsed(value, p, false);
  }

  /** The exact outcome of the signed parser on every text. */
  predicate SignedOutcome(str: text, r: Result) {
    if str == [] then r == Invalid
    else
      var k, digits := SignLength(str), Digits(str);
      var v := Value(digits, Negative(str));
      if k == |str| then r == ExpectMore(k)
      else if RunsPastBoundary(str) then r == Undefined
      else if FitsImax(v) then r == Parsed(v, k + |digits|, k + |digits| < |str|)
      else r.OutOfRange? && FirstMisfit(digits, r.end - k, Negative(str), false)
  }

  /** `sign * value` for a sign of 1 or -1. */
  function SignTimes(sign: int, value: int): int {
    if sign > 0 then value else -value
  }

  /** The negative range boundary of the signed parser, 9223372036854775800. */
  const STEP: int := IMAX_MAX - IMAX_MAX % 10

  /**
    What the signed digit loop knows at position p: no earlier prefix crossed
    the boundary step, and the accumulator holds the prefix, negated once the
    boundary step has been taken for a negative numeral.
   */
  ghost predicate Reading(str: text, p: int, value: int, sign: int) {
    var n := p - SignLength(str);
    && 0 <= n <= |Digits(str)|
    && (forall j :: 0 <= j < n ==> NumVal(Digits(str)[..j]) < STEP)
    && var prefix := NumVal(Digits(str)[..n]);
    if !Negative(str) then sign == 1 && value == prefix <= IMAX_MAX
    else if sign == 1 then value == -prefix && STEP <= prefix <= -IMAX_MIN
    else sign == -1 && value == prefix < STEP
  }

  lemma ReadingStarts(str: text)
    ensures Reading(str, SignLength(str), 0, if Negative(str) then -1 else 1)
  {
    assert Digits(str)[..0] == [];
  }

  lemma ReadingEnds(str: text, p: nat, value: int, sign: int)
    requires Reading(str, p, value, sign)
    requires p == |str| || (p < |str| && !IsDigit(str[p]))
    requires SignLength(str) < |str|
    ensures SignedOutcome(str, Parsed(SignTimes(sign, value), p, p < |str|))
  {
    if p < |str| { NextDigit(str, p); }
    assert Digits(str)[..p - SignLength(str)] == Digits(str);
  }

  lemma ReadingMisfits(str: text, p: int, value: int, sign: int)
    requires Reading(str, p, value, sign) && !(Negative(str) && sign == 1)
    requires p - SignLength(str) < |Digits(str)|
    requires NumVal(Digits(str)[..p - SignLength(str) + 1]) > (if Negative(str) then -IMAX_MIN else IMAX_MAX)
    requires SignLength(str) < |str|
    ensures SignedOutcome(str, OutOfRange(p))
  {
    hide NumVal, DigitRun, Digits;
    var d, n := Digits(str), p - SignLength(str);
    NumValPrefix(d, n + 1);
    forall j | n < j < |d|
      ensures NumVal(d[..j]) >= NumVal(d[..n + 1])
    {
      assert d[..j][..n + 1] == d[..n + 1];
      NumValPrefix(d[..j], n + 1);
    }
  }

  /** What one digit does to the accumulator of the signed parser. */
  datatype Step = Next(value: int, sign: int) | Range | Overflow

  function DigitStep(value: int, sign: int, d: int, lastDigitMax: int): Step {
    if value < IMAX_MAX / 10 then
      if FitsImax(value * 10 + d) then Next(value * 10 + d, sign) else Overflow
    else if value == IMAX_MAX / 10 then
      if d > lastDigitMax then Range
      else if sign > 0 then Next(value * 10 + d, sign)
      else Next(-value * 10 - d, 1)
    else Range
  }

  lemma ReadingSteps(str: text, p: nat, value: int, sign: int)
    requires p < |str| && IsDigit(str[p]) && Reading(str, p, value, sign)
    requires SignLength(str) < |str|
    ensures var next := DigitStep(value, sign, str[p] - 0x30, if Negative(str) then 8 else 7);
            if next.Next? then Reading(str, p + 1, next.value, next.sign)
            else SignedOutcome(str, if next.Range? then OutOfRange(p) else Undefined)
  {
    hide NumVal, DigitRun, Digits;
    NextDigit(str, p);
    var n := p - SignLength(str);
    if Negative(str) && sign == 1 {
      assert STEP <= NumVal(Digits(str)[..n]) <= -IMAX_MIN;
    } else if DigitStep(value, sign, str[p] - 0x30, if Negative(str) then 8 else 7).Range? {
      ReadingMisfits(str, p, value, sign);
    }
  }

  /** `asn_strtoimax_lim` on the text from `str` up to `*end`. */
  method StrtoImax(str: text) returns (r: Result)
    ensures SignedOutcome(str, r)
  {
    hide NumVal, DigitRun, Digits, RunsPastBoundary;
    if |str| == 0 { return Invalid; }
    var lastDigitMax, p, sign := IMAX_MAX % 10, 0, 1;
    if str[0] == MINUS {
      lastDigitMax := lastDigitMax + 1;
      sign := -1;
    }
    if str[0] == MINUS || str[0] == PLUS {
      p := 1;
      if p >= |str| { return ExpectMore(p); }
    }
    var value := 0;
    ReadingStarts(str);
    while p < |str|
      invariant SignLength(str) <= p <= |str|
      invariant Reading(str, p, value, sign)
    {
      if !IsDigit(str[p]) {
        ReadingEnds(str, p, value, sign);
        return Parsed(SignTimes(sign, value), p, true);
      }
      ReadingSteps(str, p, value, sign);
      match DigitStep(value, sign, str[p] - 0x30, lastDigitMax) {
        case Overflow => return Undefined;
        case Range => return OutOfRange(p);
        case Next(value', sign') => value, sign := value', sign';
      }
      p := p + 1;
    }
    ReadingEnds(str, p, value, sign);
    r := Parsed(SignTimes(sign, value), p, false);
  }

  /** Every numeral of the intmax_t range is read exactly; in particular it is never undefined. */
  lemma InRangeIsRead(str: text, r: Result)
    requires SignedOutcome(str, r)
    requires SignLength(str) < |str| && FitsImax(Value(Digits(str), Negative(str)))
    ensures r.Parsed? && r.value == Value(Digits(str), Negative(str))
  {
    var d := Digits(str);
    if RunsPastBoundary(str) {
      var j :| 0 <= j < |d| && STEP <= NumVal(d[..j]) <= -IMAX_MIN;
      assert d[..j + 1][..j] == d[..j];
      NumValPrefix(d, j + 1);
    }
  }

  /** One more digit after -9223372036854775808 escapes the range check of the signed parser. */
  lemma PastBoundaryIsUndefined(d: octet, r: Result)
    requires IsDigit(d)
    requires SignedOutcome([MINUS] + (Dec(-IMAX_MIN) + [d]), r)
    ensures r == Undefined
  {
    var digits := Dec(-IMAX_MIN) + [d];
    var str := [MINUS] + digits;
    assert str[1..] == digits && digits[..|digits|] == digits;
    DigitRunIs(digits, |digits|);
    NumValDec(-IMAX_MIN);
    assert digits[..|digits| - 1] == Dec(-IMAX_MIN);
    assert Digits(str) == digits && STEP <= NumVal(digits[..|digits| - 1]) <= -IMAX_MIN;
  }
}
