/**
  The receivers of `OctetText` as they run: a buffer grown to an estimate of what
  the chunk can yield, filled in place and closed with a NUL.
 */
module OctetReceivers {
  import opened Octets
  import opened Decimal
  import opened BitStream
  import opened BitString
  import opened OctetText

  /** `OCTET_STRING_t` and `BIT_STRING_t`. */
  class OctetString {
    var buf: array<octet>
    var size: nat
    var bitsUnused: nat

    /** Room is kept for a NUL after the octets in use, and one is there. */
    predicate Valid()
      reads this, buf
    {
      size < buf.Length && buf[size] == 0
    }

    function Value(): BitStr
      requires Valid()
      reads this, buf
    {
      BitStr(buf[..size], bitsUnused)
    }

    /** As `OCTET_STRING__decode_xer` allocates it. */
    constructor ()
      ensures Valid() && Value() == BitStr([], 0) && fresh(buf)
    {
      buf := new octet[1](_ => 0);
      size, bitsUnused := 0, 0;
    }

    /** `REALLOC` of the buffer to a length beyond the octets in use. */
    method Grow(length: nat)
      requires Valid() && size < length
      modifies this
      ensures Valid() && Value() == old(Value())
      ensures fresh(buf) && buf.Length == length && size == old(size) && bitsUnused == old(bitsUnused)
    {
      var grown := new octet[length];
      forall i | 0 <= i <= size { grown[i] := buf[i]; }
      assert grown[..size] == buf[..size];
      buf := grown;
    }
  }

  // ----- hexadecimal -----------------------------------------------------------------

  /** `OCTET_STRING__convert_hexadecimal`; None is the return value -1. */
  method ConvertHexadecimal(st: OctetString, chunk: text, more: bool) returns (r: Option<nat>)
    requires st.Valid()
    modifies st
    ensures fresh(st.buf)
    ensures match Convert(Hexadecimal, old(st.Value()), chunk, more)
            case Done(n, v) => r == Some(n) && st.Valid() && st.Value() == v
            case _ => r == None
  {
    hide Hex, Reading, ShiftIn, Digit, LowOctet;
    ghost var start := st.Value();
    var newSize := st.size + (|chunk| + 1) / 2;
    st.Grow(newSize + 1);
    var buf := st.buf;
    var p, q, stop, clv, half := 0, st.size, 0, 0, false;
    ghost var octets: seq<octet> := [];
    ReadStart(chunk, more);
    while p < |chunk|
      invariant 0 <= p <= |chunk| && 0 <= stop <= p && clv >= 0
      invariant q == st.size + |octets| && 2 * |octets| + (if half then 1 else 0) <= p
      invariant buf[..q] == start.buf + octets
      invariant Reading(chunk, more, stop, p, octets, if half then Some(Digit(clv)) else None)
      modifies buf
    {
      var ch := chunk[p];
      ReadStep(chunk, more, stop, p, octets, if half then Some(Digit(clv)) else None);
      if IsBlank(ch) {
        p := p + 1;
        continue;
      }
      var v := DigitValue(ch);
      if v == None {
        buf[q] := 0;
        return None;
      }
      ShiftedIn(clv, v.value);
      clv := ShiftIn(clv, v.value);
      if half {
        half := false;
        StoreAt(buf, q, LowOctet(clv));
        q := q + 1;
        stop := p + 1;
        octets := Stored(start.buf, octets, LowOctet(clv));
      } else {
        half := true;
      }
      p := p + 1;
    }
    ReadEnd(chunk, more, stop, octets, if half then Some(Digit(clv)) else None);
    if half {
      if more {
        ShiftedIn(clv, 0);
        StoreAt(buf, q, LowOctet(ShiftIn(clv, 0)));
        q := q + 1;
        stop := p;
        octets := Stored(start.buf, octets, LowOctet(ShiftIn(clv, 0)));
      }
    } else {
      stop := p;
    }
    assert q <= newSize;
    st.size := q;
    Terminate(buf, q);
    r := Some(stop);
  }

  /** The octets with one more. */
  ghost function Stored(head: seq<octet>, octets: seq<octet>, o: octet): (s: seq<octet>)
    ensures head + s == head + octets + [o] && |s| == |octets| + 1
  {
    assert head + (octets + [o]) == head + octets + [o];
    octets + [o]
  }

  /** The courtesy NUL. */
  method Terminate(buf: array<octet>, q: nat)
    requires q < buf.Length
    modifies buf
    ensures buf[q] == 0 && buf[..q] == old(buf[..q])
  {
    buf[q] := 0;
  }

  /** `*buf++ = o` */
  method StoreAt(buf: array<octet>, q: nat, o: octet)
    requires q < buf.Length
    modifies buf
    ensures buf[..q + 1] == old(buf[..q]) + [o]
  {
    buf[q] := o;
  }

  /** `(clv << 4) + v`, in 32 bits. */
  function ShiftIn(clv: nat, v: nat): nat {
    (clv * 16 + v) % 0x1_0000_0000
  }

  function Digit(clv: nat): (d: nat)
    ensures d < 16
  {
    clv % 16
  }

  function LowOctet(clv: nat): octet {
    clv % 256
  }

  /** The accumulator is never cleared, yet its low bits are the digits last read. */
  lemma ShiftedIn(clv: nat, v: nat)
    requires v < 16
    ensures Digit(ShiftIn(clv, v)) == v && LowOctet(ShiftIn(clv, v)) == 16 * Digit(clv) + v
  {
    var k, d := clv / 16, Digit(clv);
    assert clv * 16 + v == 256 * k + (16 * d + v);
    LowOctetIs(k, 16 * d + v);
    LowDigitIs(LowOctet(ShiftIn(clv, v)), d, v);
    DigitOfLowOctet(ShiftIn(clv, v));
  }

  lemma LowOctetIs(k: nat, low: octet)
    ensures LowOctet((256 * k + low) % 0x1_0000_0000) == low
  {
    var j, i := k / 0x100_0000, k % 0x100_0000;
    assert 256 * k + low == 0x1_0000_0000 * j + (256 * i + low);
    assert (256 * k + low) % 0x1_0000_0000 == 256 * i + low;
  }

  lemma LowDigitIs(o: octet, d: nat, v: nat)
    requires o == 16 * d + v && v < 16
    ensures Digit(o) == v
  {
  }

  lemma DigitOfLowOctet(n: nat)
    ensures Digit(LowOctet(n)) == Digit(n)
  {
    var k := n / 256;
    assert n == 16 * (16 * k) + LowOctet(n);
  }

  /** Where the loop stands: octets stored for the text before `stop`, and perhaps a digit after it. */
  ghost predicate Reading(chunk: text, more: bool, stop: nat, p: nat, octets: seq<octet>, open: Option<nat>) {
    && stop <= p <= |chunk| && (open.Some? ==> open.value < 16)
    && Hex(chunk, more) == Onto(Taken(stop, octets), Hex(chunk[stop..], more))
    && GroupFrom(chunk[stop..], 0, None) == GroupFrom(chunk[stop..], p - stop, open)
  }

  lemma ReadStart(chunk: text, more: bool)
    ensures Reading(chunk, more, 0, 0, [], None)
  {
    assert chunk[0..] == chunk;
    OntoNothing(Hex(chunk, more));
  }

  /** What one character does. */
  lemma ReadStep(chunk: text, more: bool, stop: nat, p: nat, octets: seq<octet>, open: Option<nat>)
    requires p < |chunk| && Reading(chunk, more, stop, p, octets, open)
    ensures var ch := chunk[p];
            var v := DigitValue(ch);
            if IsBlank(ch) then Reading(chunk, more, stop, p + 1, octets, open)
            else if v == None then Hex(chunk, more) == None
            else if open == None then Reading(chunk, more, stop, p + 1, octets, v)
            else Reading(chunk, more, p + 1, p + 1, octets + [16 * open.value + v.value], None)
  {
    hide Hex, Onto;
    var t := chunk[stop..];
    assert t[p - stop] == chunk[p];
    if !IsBlank(chunk[p]) {
      if DigitValue(chunk[p]) == None {
        HexBad(t, Taken(stop, octets), more);
      } else if open.Some? {
        var g := GroupFrom(t, 0, None);
        HexCases(t, more);
        OntoTwice(Taken(stop, octets), Taken(g.length, [g.octet]), Hex(t[g.length..], more));
        assert t[p + 1 - stop..] == chunk[p + 1..];
      }
    }
  }

  lemma HexBad(t: text, first: Taken, more: bool)
    requires GroupFrom(t, 0, None).Bad?
    ensures Onto(first, Hex(t, more)) == None
  {
  }

  lemma ReadEnd(chunk: text, more: bool, stop: nat, octets: seq<octet>, open: Option<nat>)
    requires Reading(chunk, more, stop, |chunk|, octets, open)
    ensures Hex(chunk, more)
         == Some(if open == None then Taken(|chunk|, octets)
                 else if more then Taken(|chunk|, octets + [16 * open.value])
                 else Taken(stop, octets))
  {
    assert octets + [] == octets;
  }

  // ----- binary ------------------------------------------------------------------------

  /** `o | (1 << k)` */
  function SetBit(o: nat, k: nat): nat {
    if k == 0 then (if o % 2 == 1 then o else o + 1) else 2 * SetBit(o / 2, k - 1) + o % 2
  }

  lemma {:induction false} SetBitBound(o: nat, k: nat, n: nat)
    requires o < Pow2(n) && k < n
    ensures SetBit(o, k) < Pow2(n)
  {
    var half, low := o / 2, o % 2;
    assert o == 2 * half + low && Pow2(n) == 2 * Pow2(n - 1);
    if k > 0 {
      SetBitBound(half, k - 1, n - 1);
      assert SetBit(o, k) == 2 * SetBit(half, k - 1) + low;
    }
  }

  lemma {:induction false} SetBitBits(o: nat, k: nat, n: nat)
    requires k < n
    ensures ToBits(SetBit(o, k), n) == ToBits(o, n)[n - 1 - k := 1]
  {
    if k > 0 {
      SetBitBits(o / 2, k - 1, n - 1);
    } else if o % 2 == 0 {
      assert (o + 1) / 2 == o / 2;
    }
  }

  /** `*buf |= (ch & 1) << k` */
  function OrDigit(o: octet, d: bit, k: nat): octet
    requires k < 8
  {
    Pow2At8And16();
    SetBitBound(o, k, 8);
    if d == 1 then SetBit(o, k) else o
  }

  /** The cells hold the bits so far, then what is left of the current cell. */
  ghost predicate Cells(buf: seq<octet>, whole: seq<bit>, left: seq<bit>) {
    OctetBits(buf) == whole + left
  }

  /** A digit or-ed into the first bit left. */
  lemma DigitStored(head: seq<octet>, cell: octet, whole: seq<bit>, left: seq<bit>, d: bit)
    requires 0 < |left| <= 8 && Cells(head + [cell], whole, left)
    ensures Cells(head + [OrDigit(cell, d, |left| - 1)], whole + [OrBit(left[0], d)], left[1..])
  {
    hide OctetBits, ToBits, SetBit, Pow2;
    var k, n := |left| - 1, |whole|;
    OctetBitsConcat(head, [cell]);
    OctetBitsConcat(head, [OrDigit(cell, d, k)]);
    OneOctet(cell);
    OneOctet(OrDigit(cell, d, k));
    SetBitBits(cell, k, 8);
    var before, after := OctetBits(head) + ToBits(cell, 8), OctetBits(head) + ToBits(OrDigit(cell, d, k), 8);
    assert before == whole + left;
    assert before[n] == left[0];
    assert after == before[n := OrBit(left[0], d)];
    assert after == (whole + [OrBit(left[0], d)]) + left[1..];
  }

  /** A fresh cell after a full one. */
  lemma CellAdded(head: seq<octet>, whole: seq<bit>)
    requires Cells(head, whole, [])
    ensures Cells(head + [0], whole, Zeros(8))
  {
    hide OctetBits, ToBits;
    OctetBitsConcat(head, [0]);
    OneOctet(0);
    ToBitsOfZero(8);
    assert whole + [] == whole;
  }

  /** What the loop starts from: the unused bits of the last cell, or a fresh cell. */
  function Free(st: BitStr): (left: seq<bit>)
    requires st.Valid()
    ensures 0 < |left| <= 8
  {
    if st.unused == 0 then Zeros(8) else UnusedBits(st)
  }

  lemma CellsStart(st: BitStr)
    requires st.Valid()
    ensures Cells(if st.unused == 0 then st.buf + [0] else st.buf, st.Bits(), Free(st))
  {
    hide OctetBits;
    if st.unused == 0 {
      assert st.Bits() + [] == OctetBits(st.buf);
      CellAdded(st.buf, st.Bits());
    }
  }

  /** `OCTET_STRING__convert_binary`; None is the return value -1. */
  method ConvertBinary(st: OctetString, chunk: text) returns (r: Option<nat>)
    requires st.Valid() && st.Value().Valid()
    modifies st
    ensures fresh(st.buf)
    ensures match Digits(chunk)
            case None => r == None
            case Some(digits) => r == Some(|chunk|) && st.Valid() && st.Value() == Laid(old(st.Value()), digits)
  {
    hide OctetBits, Cells, Laid, Digits, Free;
    ghost var start := st.Value();
    CellsStart(start);
    var unused := st.bitsUnused % 8;
    var newSize := st.size + (|chunk| + 7) / 8;
    st.Grow(newSize + 1);
    var buf := st.buf;
    var b := st.size;
    assert buf[..b + 1] == start.buf + [0];
    if unused == 0 {
      unused := 8;
    } else if st.size > 0 {
      b := b - 1;
      assert buf[..b + 1] == start.buf;
    }
    FreeLength(start);
    var ok;
    ok, b, unused := StoreDigits(buf, b, unused, chunk, start.Bits(), Free(start));
    if !ok {
      st.bitsUnused := unused;
      return None;
    }
    assert buf[..b + 1] == buf[..b] + [buf[b]];
    CellsEnd(buf[..b], buf[b], start, Digits(chunk).value, unused);
    if unused == 8 {
      st.size, st.bitsUnused := b, 0;
    } else {
      st.size, st.bitsUnused := b + 1, unused;
    }
    assert st.size <= newSize;
    Terminate(buf, st.size);
    r := Some(|chunk|);
  }

  lemma FreeLength(st: BitStr)
    requires st.Valid()
    ensures |Free(st)| == if st.unused == 0 then 8 else st.unused
  {
  }

  /** The loop over the characters; false when one is neither blank nor a binary digit. */
  method StoreDigits(buf: array<octet>, cell: nat, free: nat, chunk: text, ghost whole: seq<bit>, ghost there: seq<bit>)
    returns (ok: bool, b: nat, unused: nat)
    requires cell < buf.Length && 0 < free <= 8 && |there| == free && 8 * (cell + 1) == |whole| + free
    requires Cells(buf[..cell + 1], whole, there)
    requires |whole| + |chunk| <= 8 * (buf.Length - 1)
    modifies buf
    ensures ok == Digits(chunk).Some?
    ensures ok ==>
              var digits := Digits(chunk).value;
              && b < buf.Length && unused == |LeftOver(there, |digits|)| && (unused == 8 ==> digits == [])
              && 8 * (b + 1) == |whole| + |digits| + unused
              && (unused == 8 || b + 1 < buf.Length)
              && Cells(buf[..b + 1], whole + OrInto(there, digits), LeftOver(there, |digits|))
  {
    hide Cells, Digits, DigitsRead, OrInto, LeftOver;
    b, unused := cell, free;
    ghost var digits: seq<bit> := [];
    LaidNothing(whole, there);
    var p := 0;
    DigitsStart(chunk);
    while p < |chunk|
      invariant 0 <= p <= |chunk| && unused == |LeftOver(there, |digits|)| <= 8 && |digits| <= p
      invariant unused == 8 ==> digits == []
      invariant b < buf.Length && 8 * (b + 1) == |whole| + |digits| + unused
      invariant Cells(buf[..b + 1], whole + OrInto(there, digits), LeftOver(there, |digits|))
      invariant DigitsRead(chunk, p, digits)
    {
      var ch := chunk[p];
      DigitStep(chunk, p, digits);
      if IsBlank(ch) {
      } else if ch == 0x30 || ch == 0x31 {
        LaidMore(whole, there, digits, ch - 0x30);
        b, unused := PutDigit(buf, b, unused, ch - 0x30, whole + OrInto(there, digits), LeftOver(there, |digits|));
        digits := digits + [ch - 0x30];
      } else {
        return false, b, unused;
      }
      p := p + 1;
    }
    DigitsEnd(chunk, digits);
    ok := true;
  }

  lemma LaidNothing(whole: seq<bit>, there: seq<bit>)
    requires there != []
    ensures whole + OrInto(there, []) == whole && LeftOver(there, 0) == there
  {
  }

  /** The bits after a digit, and what is left for the next. */
  function Next(left: seq<bit>): (next: seq<bit>) {
    if left == [] then Zeros(7) else left[1..]
  }

  function NextBit(left: seq<bit>, d: bit): bit {
    if left == [] then d else OrBit(left[0], d)
  }

  lemma LaidMore(whole: seq<bit>, there: seq<bit>, digits: seq<bit>, d: bit)
    requires there != []
    ensures var left := LeftOver(there, |digits|);
            && whole + OrInto(there, digits + [d]) == whole + OrInto(there, digits) + [NextBit(left, d)]
            && LeftOver(there, |digits + [d]|) == Next(left)
  {
    hide OrInto, LeftOver;
    BitLaid(there, digits, d);
    LeftMore(there, |digits|);
  }

  lemma BitLaid(there: seq<bit>, digits: seq<bit>, d: bit)
    ensures OrInto(there, digits + [d]) == OrInto(there, digits) + [NextBit(LeftOver(there, |digits|), d)]
  {
    var n := |digits|;
    if n >= |there| && LeftOver(there, n) != [] { assert LeftOver(there, n)[0] == 0; }
  }

  lemma LeftMore(there: seq<bit>, n: nat)
    requires there != []
    ensures LeftOver(there, n + 1) == Next(LeftOver(there, n))
  {
    if n + 1 < |there| {
      assert there[n..][1..] == there[n + 1..];
    } else if n < |there| {
      assert there[n..][1..] == [];
    }
  }

  /** What the cells hold at the end, the last one counted only when a bit of it is used. */
  lemma CellsEnd(head: seq<octet>, cell: octet, st: BitStr, digits: seq<bit>, unused: nat)
    requires st.Valid() && unused == |LeftOver(Free(st), |digits|)| <= 8 && (unused == 8 ==> digits == [])
    requires Cells(head + [cell], st.Bits() + OrInto(Free(st), digits), LeftOver(Free(st), |digits|))
    ensures Laid(st, digits) == if unused == 8 then BitStr(head, 0) else BitStr(head + [cell], unused)
  {
    hide OctetBits, Pack, OrInto;
    FreeAlike(st, digits);
    var there := UnusedBits(st);
    if unused == 8 {
      OctetBitsConcat(head, [cell]);
      assert st.unused == 0;
      assert |OctetBits(head)| == |st.Bits()|;
      assert OctetBits(head) == (OctetBits(head) + OctetBits([cell]))[..|st.Bits()|];
      assert OctetBits(head) == (st.Bits() + OrInto(there, [])) + LeftOver(there, 0);
      PackOctetBits(head);
    } else {
      PackOctetBits(head + [cell]);
    }
  }

  /** A fresh cell and none come to the same once a bit is laid. */
  lemma FreeAlike(st: BitStr, digits: seq<bit>)
    requires st.Valid()
    ensures OrInto(Free(st), digits) == OrInto(UnusedBits(st), digits)
    ensures |LeftOver(Free(st), |digits|)| < 8 ==> LeftOver(Free(st), |digits|) == LeftOver(UnusedBits(st), |digits|)
    ensures |LeftOver(Free(st), |digits|)| == 8 ==> st.unused == 0
  {
    hide OctetBits, OrInto, LeftOver;
    if st.unused == 0 {
      OrIntoZeros(8, digits);
      OrIntoZeros(0, digits);
      FreshLeft(|digits|);
      assert UnusedBits(st) == Zeros(0);
    } else {
      LeftIsShort(UnusedBits(st), |digits|);
    }
  }

  lemma FreshLeft(n: nat)
    ensures |LeftOver(Zeros(8), n)| < 8 ==> LeftOver(Zeros(8), n) == LeftOver(Zeros(0), n)
  {
    if 0 < n < 8 {
      assert Zeros(8)[n..] == Zeros(8 - n);
    } else if n >= 8 {
      EightLess(n);
    }
  }

  lemma EightLess(n: nat)
    requires n >= 8
    ensures (n - 8) % 8 == n % 8
  {
  }

  lemma LeftIsShort(there: seq<bit>, n: nat)
    requires |there| <= 7
    ensures |LeftOver(there, n)| <= 7
  {
  }

  /** One binary digit, into a new cell when the current one is full. */
  method PutDigit(buf: array<octet>, cell: nat, unused: nat, d: bit, ghost whole: seq<bit>, ghost there: seq<bit>)
    returns (b: nat, left: nat)
    requires cell < buf.Length && unused == |there| <= 8
    requires unused == 0 ==> cell + 1 < buf.Length
    requires Cells(buf[..cell + 1], whole, there)
    modifies buf
    ensures b == (if unused == 0 then cell + 1 else cell) && left == if unused == 0 then 7 else unused - 1
    ensures Cells(buf[..b + 1], whole + [NextBit(there, d)], Next(there))
  {
    hide Cells, OrDigit;
    b := cell;
    ghost var free := there;
    if unused <= 0 {
      assert there == [];
      CellAdded(buf[..b + 1], whole);
      b, left := b + 1, 7;
      StoreAt(buf, b, 0);
      free := Zeros(8);
      FreshDigit(d);
    } else {
      left := unused - 1;
    }
    ghost var head, last := buf[..b], buf[b];
    assert buf[..b + 1] == head + [last];
    DigitStored(head, last, whole, free, d);
    StoreAt(buf, b, OrDigit(buf[b], d, left));
  }

  lemma FreshDigit(d: bit)
    ensures OrBit(Zeros(8)[0], d) == d && Zeros(8)[1..] == Zeros(7)
  {
  }

  /** Where the loop stands: the digits read, and those still to come. */
  ghost predicate DigitsRead(chunk: text, p: nat, digits: seq<bit>) {
    && p <= |chunk|
    && Digits(chunk) == match Digits(chunk[p..])
                        case None => None
                        case Some(rest) => Some(digits + rest)
  }

  lemma DigitsStart(chunk: text)
    ensures DigitsRead(chunk, 0, [])
  {
    assert chunk[0..] == chunk;
    if Digits(chunk).Some? { assert [] + Digits(chunk).value == Digits(chunk).value; }
  }

  lemma DigitStep(chunk: text, p: nat, digits: seq<bit>)
    requires p < |chunk| && DigitsRead(chunk, p, digits)
    ensures var ch := chunk[p];
            if IsBlank(ch) then DigitsRead(chunk, p + 1, digits)
            else if ch == 0x30 || ch == 0x31 then DigitsRead(chunk, p + 1, digits + [ch - 0x30])
            else Digits(chunk) == None
  {
    hide Digits, IsBlank;
    var t, ch := chunk[p..], chunk[p];
    assert t[0] == ch && t[1..] == chunk[p + 1..];
    FirstDigit(t);
    var rest := Digits(t[1..]);
    if !IsBlank(ch) && (ch == 0x30 || ch == 0x31) && rest.Some? {
      Associative(digits, [ch - 0x30], rest.value);
    }
  }

  lemma FirstDigit(t: text)
    requires t != []
    ensures Digits(t) == if IsBlank(t[0]) then Digits(t[1..])
                         else if t[0] != 0x30 && t[0] != 0x31 then None
                         else match Digits(t[1..])
                              case None => None
                              case Some(rest) => Some([t[0] - 0x30] + rest)
  {
    hide IsBlank;
  }

  lemma DigitsEnd(chunk: text, digits: seq<bit>)
    requires DigitsRead(chunk, |chunk|, digits)
    ensures Digits(chunk) == Some(digits)
  {
    assert chunk[|chunk|..] == [] && digits + [] == digits;
  }

  // ----- entity references -------------------------------------------------------------

  /** `OS__strtoent`: -1 for a bad character or value, else the count read; the value is -1 when no `;` came. */
  method Strtoent(base: nat, t: text) returns (len: int, value: int)
    requires base == 10 || base == 16
    ensures match NumberFrom(base, t, 0, 0)
            case Invalid => len == -1
            case Unfinished => len == |t| && value == -1 && (t != [] ==> t[|t| - 1] != SEMICOLON)
            case Value(v, n) => len == n && value == v && t[n - 1] == SEMICOLON
  {
    var val, p := 0, 0;
    value := 0;
    while p < |t|
      invariant 0 <= p <= |t| && 0 <= val <= LAST_CODEPOINT
      invariant NumberFrom(base, t, 0, 0) == NumberFrom(base, t, p, val)
      invariant p > 0 ==> t[p - 1] != SEMICOLON
    {
      var ch := t[p];
      if ch == SEMICOLON { return p + 1, val; }
      var v := DigitValue(ch);
      if v == None { return -1, value; }
      val := val * base + v.value;
      if val > LAST_CODEPOINT { return -1, value; }
      p := p + 1;
    }
    return p, -1;
  }

  lemma {:induction false} NumberShifts(base: nat, t: text, start: nat, i: nat, val: nat)
    requires start + i <= |t| && val <= LAST_CODEPOINT
    ensures NumberFrom(base, t, start + i, val)
         == var n := NumberFrom(base, t[start..], i, val);
            if n.Value? then Value(n.value, start + n.length) else n
    decreases |t| - i
  {
    if start + i < |t| {
      assert t[start..][i] == t[start + i];
      var v := DigitValue(t[start + i]);
      if t[start + i] != SEMICOLON && v.Some? && val * base + v.value <= LAST_CODEPOINT {
        NumberShifts(base, t, start, i + 1, val * base + v.value);
      }
    }
  }

  /** `memchr(p, ';', n)` */
  method FindSemicolon(t: text, n: nat) returns (sc: Option<nat>)
    requires n <= |t|
    ensures sc == Semicolon(t, 0, n)
  {
    var i := 0;
    while i < n
      invariant 0 <= i <= n && Semicolon(t, 0, n) == Semicolon(t, i, n)
    {
      if t[i] == SEMICOLON { return Some(i); }
      i := i + 1;
    }
    sc := None;
  }

  /** The reference at the front of a text, as the branches of the conversion loop read it. */
  method ReadReference(t: text) returns (piece: Piece)
    requires t != [] && t[0] == AMPERSAND
    ensures piece == PieceOf(t)
  {
    var len: int := |t|;
    if len == 1 { return Incomplete; }
    if t[1] == HASH {
      if len == 2 { return Incomplete; }
      var pval, base, val := 2, 10, 0;
      if t[2] == 0x78 { pval, base := 3, 16; }
      len, val := Strtoent(base, t[pval..]);
      NumberShifts(base, t, pval, 0, 0);
      if len == -1 { return Verbatim(t); }
      if len == 0 || t[pval..][len - 1] != SEMICOLON { return Incomplete; }
      if val == 0 { return ZeroReference; }
      return OctetText.Stored(Utf8(val), pval + len);
    }
    var sc := FindSemicolon(t, if len > 5 then 5 else len);
    if sc == None { return Incomplete; }
    assert sc.value == 4 ==> t[1..4] == [t[1], t[2], t[3]];
    if sc.value == 4 && t[1] == 0x61 && t[2] == 0x6d && t[3] == 0x70 {
      return OctetText.Stored([AMPERSAND], 5);
    }
    if sc.value == 3 {
      assert t[1..3] == [t[1], t[2]];
      var o: octet;
      if t[1] == 0x6c {
        o := LESS;
      } else if t[1] == 0x67 {
        o := GREATER;
      } else {
        return Verbatim(t);
      }
      if t[2] != 0x74 { return Verbatim(t); }
      return OctetText.Stored([o], 4);
    }
    piece := Verbatim(t);
  }

  datatype EntityResult = Failed | Converted(length: nat)

  /** `OCTET_STRING__convert_entrefs`; `Failed` is a failed `assert(val > 0)`. */
  method ConvertEntities(st: OctetString, chunk: text, more: bool) returns (r: EntityResult)
    requires st.Valid()
    modifies st
    ensures fresh(st.buf)
    ensures match Convert(Entities, old(st.Value()), chunk, more)
            case Done(n, v) => r == Converted(n) && st.Valid() && st.Value() == v
            case _ => r == Failed
  {
    hide Expand, PieceOf, Expanding;
    ghost var start := st.Value();
    var newSize := st.size + |chunk|;
    st.Grow(newSize + 1);
    var buf := st.buf;
    var p, q, chunkSize := 0, st.size, |chunk|;
    ghost var octets: seq<octet> := [];
    ExpandStart(chunk, more);
    while p < |chunk|
      invariant 0 <= p <= |chunk| == chunkSize
      invariant q == st.size + |octets| && |octets| <= p
      invariant buf[..q] == start.buf + octets
      invariant Expanding(chunk, more, p, octets)
      modifies buf
    {
      ExpandStep(chunk, more, p, octets);
      var ch := chunk[p];
      var piece := Verbatim(chunk[p..]);
      if ch == AMPERSAND {
        piece := ReadReference(chunk[p..]);
      } else {
        PlainPiece(chunk[p..]);
      }
      PieceFits(chunk[p..]);
      if piece.ZeroReference? { return Failed; }
      if piece.Incomplete? {
        if !more {
          chunkSize := p;
          break;
        }
        piece := Verbatim(chunk[p..]);
      }
      q := StoreAll(buf, q, piece.octets);
      octets := StoredAll(start.buf, octets, piece.octets);
      p := p + piece.length;
    }
    if chunkSize == |chunk| { ExpandEnd(chunk, more, octets); }
    assert q <= newSize;
    st.size := q;
    Terminate(buf, q);
    r := Converted(chunkSize);
  }

  /** The `*buf++ =` lines of one reference. */
  method StoreAll(buf: array<octet>, q: nat, octets: seq<octet>) returns (r: nat)
    requires q + |octets| <= buf.Length
    modifies buf
    ensures r == q + |octets| && buf[..r] == old(buf[..q]) + octets
  {
    r := q;
    while r < q + |octets|
      invariant q <= r <= q + |octets|
      invariant buf[..r] == old(buf[..q]) + octets[..r - q]
    {
      StoreAt(buf, r, octets[r - q]);
      assert octets[..r + 1 - q] == octets[..r - q] + [octets[r - q]];
      r := r + 1;
    }
    assert octets[..|octets|] == octets;
  }

  ghost function StoredAll(head: seq<octet>, octets: seq<octet>, next: seq<octet>): (s: seq<octet>)
    ensures s == octets + next && head + s == head + octets + next
  {
    assert head + (octets + next) == head + octets + next;
    octets + next
  }

  lemma PlainPiece(t: text)
    requires t != [] && t[0] != AMPERSAND
    ensures PieceOf(t) == Verbatim(t)
  {
  }

  /** Where the loop stands: octets stored for the text before p. */
  ghost predicate Expanding(chunk: text, more: bool, p: nat, octets: seq<octet>) {
    && p <= |chunk|
    && Expand(chunk, more) == Onto(Taken(p, octets), Expand(chunk[p..], more))
  }

  lemma ExpandStart(chunk: text, more: bool)
    ensures Expanding(chunk, more, 0, [])
  {
    assert chunk[0..] == chunk;
    OntoNothing(Expand(chunk, more));
  }

  lemma ExpandStep(chunk: text, more: bool, p: nat, octets: seq<octet>)
    requires p < |chunk| && Expanding(chunk, more, p, octets)
    ensures var piece := PieceOf(chunk[p..]);
            if piece.ZeroReference? then Expand(chunk, more) == None
            else if piece.Stored? then Expanding(chunk, more, p + piece.length, octets + piece.octets)
            else if more then Expanding(chunk, more, p + 1, octets + [chunk[p]])
            else Expand(chunk, more) == Some(Taken(p, octets))
  {
    hide PieceOf;
    var t := chunk[p..];
    var piece := PieceOf(t);
    var next := if piece.Incomplete? then OctetText.Stored([t[0]], 1) else piece;
    if next.Stored? {
      assert t[next.length..] == chunk[p + next.length..];
      OntoTwice(Taken(p, octets), Taken(next.length, next.octets), Expand(t[next.length..], more));
    }
    assert octets + [] == octets;
  }

  lemma ExpandEnd(chunk: text, more: bool, octets: seq<octet>)
    requires Expanding(chunk, more, |chunk|, octets)
    ensures Expand(chunk, more) == Some(Taken(|chunk|, octets))
  {
    assert octets + [] == octets;
  }
}
