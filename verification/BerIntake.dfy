/**
  Primitive OCTET STRING and BIT STRING contents taken in from BER, in whatever
  pieces they arrive: the growing buffer of the APPEND macro, phase 3 of the
  decoder, and the check that ends it (section 8.6 of ITU-T X.690 for bit strings).
 */
module BerIntake {
  import opened Octets
  import opened BitStream
  import opened BitString

  // ----- the growing buffer ----------------------------------------------------------------

  /** `(int)n < 0` for a 64-bit size and a 32-bit int. */
  predicate NegativeInt(n: nat) {
    n % 0x1_0000_0000 >= 0x8000_0000
  }

  /** The doubling loop: `do { _ns = _ns ? _ns << 1 : 16; } while(_ns <= _es)`. */
  function Doubled(ns: nat, es: nat): (r: nat)
    requires ns <= es
    ensures r > es
    decreases es - ns
  {
    var next := if ns == 0 then 16 else 2 * ns;
    if next <= es then Doubled(next, es) else next
  }

  /** The string so far, the octets allocated for it, and the contents octets still to come. */
  datatype Intake = Intake(value: BitStr, capacity: nat, left: nat)

  /** `APPEND`; None is its failure. */
  function Append(s: Intake, chunk: seq<octet>): Option<Intake> {
    var es := |s.value.buf| + |chunk|;
    if NegativeInt(es) then None
    else
      var ns := if s.capacity <= es then Doubled(s.capacity, es) else s.capacity;
      if s.capacity <= es && NegativeInt(ns) then None
      else Some(s.(value := s.value.(buf := s.value.buf + chunk), capacity := ns))
  }

  const MAX_SIZE: nat := 0x4000_0000

  /** The octets allocated for a string of n octets, however it grew. */
  function Allocation(n: nat): nat {
    Doubled(0, n)
  }

  lemma {:induction false} DoubledBound(ns: nat, es: nat)
    requires ns <= es
    ensures Doubled(ns, es) <= if es < 8 then 16 else 2 * es
    decreases es - ns
  {
    var next := if ns == 0 then 16 else 2 * ns;
    if next <= es { DoubledBound(next, es); }
  }

  lemma {:induction false} DoubledIsPower(ns: nat, es: nat, k: nat) returns (j: nat)
    requires ns <= es && (ns == 0 || ns == Pow2(k))
    ensures Doubled(ns, es) == Pow2(j)
    decreases es - ns
  {
    assert Pow2(4) == 16;
    var next := if ns == 0 then 16 else 2 * ns;
    var i := if ns == 0 then 4 else k + 1;
    assert next == Pow2(i);
    if next <= es { j := DoubledIsPower(next, es, i); } else { j := i; }
  }

  /** Growing in steps ends where growing at once would. */
  lemma {:induction false} DoubledAgain(ns: nat, m: nat, n: nat)
    requires ns <= m <= n
    ensures var a := Doubled(ns, m);
            Doubled(ns, n) == if a <= n then Doubled(a, n) else a
    decreases m - ns
  {
    var next := if ns == 0 then 16 else 2 * ns;
    if next <= m { DoubledAgain(next, m, n); }
  }

  lemma Pow2At30()
    ensures Pow2(30) == MAX_SIZE && Pow2(31) == 2 * MAX_SIZE
  {
    Pow2At8And16();
    assert Pow2(26) == 4 * Pow2(24);
    assert Pow2(28) == 4 * Pow2(26);
    assert Pow2(30) == 4 * Pow2(28);
  }

  /** The buffer can be grown exactly for strings below 2^30 octets. */
  lemma AllocationFits(n: nat)
    requires n < 3 * MAX_SIZE
    ensures n < MAX_SIZE ==> Allocation(n) <= MAX_SIZE
    ensures (NegativeInt(n) || NegativeInt(Allocation(n))) <==> n >= MAX_SIZE
  {
    Pow2At30();
    DoubledBound(0, n);
    var j := DoubledIsPower(0, n, 0);
    if n < MAX_SIZE {
      if j >= 31 { Pow2Monotone(31, j); } else { Pow2Monotone(j, 30); }
    } else if n < 2 * MAX_SIZE {
      if j <= 30 { Pow2Monotone(j, 30); } else { Pow2Monotone(31, j); }
    }
  }

  /** What the APPEND macro keeps: nothing allocated and nothing stored, or the allocation its size calls for. */
  predicate Grown(s: Intake) {
    && |s.value.buf| < MAX_SIZE
    && (if s.capacity == 0 then s.value.buf == [] else s.capacity == Allocation(|s.value.buf|))
  }

  /** Appending succeeds exactly below 2^30 octets, and keeps room for a NUL. */
  lemma AppendGrows(s: Intake, chunk: seq<octet>)
    requires Grown(s) && |chunk| < 2 * MAX_SIZE
    ensures var n := |s.value.buf| + |chunk|;
            Append(s, chunk)
            == if n < MAX_SIZE then
                 Some(Intake(BitStr(s.value.buf + chunk, s.value.unused), Allocation(n), s.left))
               else None
  {
    hide Doubled;
    var m, n := |s.value.buf|, |s.value.buf| + |chunk|;
    AllocationFits(n);
    AllocationFits(m);
    if s.capacity > 0 { DoubledAgain(0, m, n); }
  }

  // ----- phase 3 -------------------------------------------------------------------------

  datatype Ret =
    | Failure
    | More(consumed: nat, state: Intake)
    | Complete(consumed: nat, state: Intake)

  /** The first octet of a BIT STRING, taken for the count of unused bits while nothing is allocated. */
  function ChopUnused(bitString: bool, s: Intake, data: seq<octet>): (r: (Intake, seq<octet>))
    ensures |data| <= |r.1| + 1 && (r.1 == data || (data != [] && r.1 == data[1..]))
    ensures s.left > 0 ==> r.0.left - |r.1| == s.left - |data|
  {
    if bitString && s.capacity == 0 && s.left > 0 && data != [] then
      (s.(value := s.value.(unused := data[0]), left := s.left - 1), data[1..])
    else (s, data)
  }

  /** One call with the data at hand. */
  function TakeIn(bitString: bool, s: Intake, data: seq<octet>): Ret {
    if |data| < s.left then
      if data == [] then More(0, s)
      else
        var (s1, rest) := ChopUnused(bitString, s, data);
        match Append(s1, rest)
        case None => Failure
        case Some(s2) => More(|data|, s2.(left := s1.left - |rest|))
    else
      var (s1, rest) := ChopUnused(bitString, s, data);
      match Append(s1, rest[..s1.left])
      case None => Failure
      case Some(s2) => Complete(s.left, s2.(left := 0))
  }

  /** The contents octets as a string, over the count of unused bits there was before. */
  function Given(bitString: bool, unused: nat, contents: seq<octet>): BitStr {
    if bitString && contents != [] then BitStr(contents[1..], contents[0]) else BitStr(contents, unused)
  }

  /** A structure just allocated, with contents of the given length announced. */
  function Start(unused: nat, length: nat): Intake {
    Intake(BitStr([], unused), 0, length)
  }

  /** The calls made as the pieces arrive. */
  function Feed(bitString: bool, s: Intake, pieces: seq<seq<octet>>): Ret
    decreases |pieces|
  {
    if pieces == [] then More(0, s)
    else
      match TakeIn(bitString, s, pieces[0])
      case Failure => Failure
      case Complete(c, t) => Complete(c, t)
      case More(c, t) =>
        match Feed(bitString, t, pieces[1..])
        case Failure => Failure
        case More(d, u) => More(c + d, u)
        case Complete(d, u) => Complete(c + d, u)
  }

  /** Where the intake stands after a first part of the contents. */
  ghost predicate Reached(bitString: bool, unused: nat, length: nat, part: seq<octet>, s: Intake) {
    if part == [] then s == Start(unused, length)
    else
      && |part| < length && s.left == length - |part|
      && s.value == Given(bitString, unused, part)
      && s.capacity > 0 && Grown(s)
  }

  /** A call that ends before the contents do consumes its data and goes one part further. */
  lemma TakesPart(bitString: bool, unused: nat, length: nat, part: seq<octet>, s: Intake, data: seq<octet>)
    requires Reached(bitString, unused, length, part, s) && |data| < 2 * MAX_SIZE
    requires |part| + |data| < length && data != []
    ensures var r := TakeIn(bitString, s, data);
            if |Given(bitString, unused, part + data).buf| < MAX_SIZE
            then r.More? && r.consumed == |data| && Reached(bitString, unused, length, part + data, r.state)
            else r == Failure
  {
    hide Append, Allocation;
    var (s1, rest) := ChopUnused(bitString, s, data);
    AllocationAtZero(|Given(bitString, unused, part + data).buf|);
    GivenExtends(bitString, unused, part, data);
    AppendGrows(s1, rest);
  }

  lemma AllocationAtZero(n: nat)
    ensures Allocation(n) > 0
  {
  }

  lemma GivenExtends(bitString: bool, unused: nat, part: seq<octet>, data: seq<octet>)
    requires data != []
    ensures Given(bitString, unused, part + data)
         == if part == [] then Given(bitString, unused, data)
            else BitStr(Given(bitString, unused, part).buf + data, Given(bitString, unused, part).unused)
  {
    if part == [] { assert part + data == data; }
    else { assert (part + data)[1..] == part[1..] + data; }
  }

  /** A call that reaches the end of the contents takes exactly them. */
  lemma TakesRest(bitString: bool, unused: nat, length: nat, part: seq<octet>, s: Intake, data: seq<octet>)
    requires Reached(bitString, unused, length, part, s) && |data| < 2 * MAX_SIZE
    requires |part| + |data| >= length >= |part|
    ensures var contents := part + data[..length - |part|];
            var v := Given(bitString, unused, contents);
            TakeIn(bitString, s, data)
            == if |v.buf| < MAX_SIZE then Complete(length - |part|, Intake(v, Allocation(|v.buf|), 0)) else Failure
  {
    hide Append, Allocation;
    var n := length - |part|;
    var (s1, rest) := ChopUnused(bitString, s, data);
    AppendGrows(s1, rest[..s1.left]);
    if n > 0 {
      GivenExtends(bitString, unused, part, data[..n]);
      if bitString && part == [] { assert data[1..][..n - 1] == data[..n][1..]; }
    } else {
      assert part == [] && data[..0] == [] && [] + rest[..0] == rest[..0];
    }
    assert [] + rest[..s1.left] == rest[..s1.left];
  }

  /**
    Whatever pieces the contents arrive in, they are taken in as one call would take
    them: the same octets and unused bits, the same allocation, consumed counts adding
    up to the length; and it fails exactly when 2^30 octets or more would be stored.
   */
  lemma {:induction false} AnySplit(bitString: bool, unused: nat, contents: seq<octet>, part: seq<octet>, s: Intake,
                                    pieces: seq<seq<octet>>)
    requires Reached(bitString, unused, |contents|, part, s)
    requires pieces != [] && contents <= part + Join(pieces)
    requires forall p :: p in pieces ==> |p| < 2 * MAX_SIZE
    ensures var v := Given(bitString, unused, contents);
            Feed(bitString, s, pieces)
            == if |v.buf| < MAX_SIZE
               then Complete(|contents| - |part|, Intake(v, Allocation(|v.buf|), 0))
               else Failure
    decreases |pieces|
  {
    hide TakeIn, Given, Allocation;
    var data, length := pieces[0], |contents|;
    assert data in pieces;
    var all := part + Join(pieces);
    assert all == part + (data + Join(pieces[1..]));
    if |part| + |data| >= length {
      assert contents == all[..length] == part + data[..length - |part|];
      TakesRest(bitString, unused, length, part, s, data);
    } else {
      assert all == (part + data) + Join(pieces[1..]);
      assert pieces[1..] != [];
      assert forall p :: p in pieces[1..] ==> p in pieces;
      if data == [] {
        assert part + data == part;
        NothingTaken(bitString, s);
        AnySplit(bitString, unused, contents, part, s, pieces[1..]);
      } else {
        TakesPart(bitString, unused, length, part, s, data);
        PartFits(bitString, unused, contents, part + data);
        if TakeIn(bitString, s, data).More? {
          AnySplit(bitString, unused, contents, part + data, TakeIn(bitString, s, data).state, pieces[1..]);
        }
      }
    }
  }

  lemma NothingTaken(bitString: bool, s: Intake)
    ensures s.left > 0 ==> TakeIn(bitString, s, []) == More(0, s)
  {
  }

  lemma PartFits(bitString: bool, unused: nat, contents: seq<octet>, part: seq<octet>)
    requires part <= contents
    ensures |Given(bitString, unused, part).buf| <= |Given(bitString, unused, contents).buf|
  {
  }

  // ----- the end of a BIT STRING -------------------------------------------------------------

  /** `o & (0xff << k)` */
  function ClearLow(o: nat, k: nat): (r: nat)
    ensures r <= o
  {
    if k == 0 then o else 2 * ClearLow(o / 2, k - 1)
  }

  lemma {:induction false} ClearLowBits(o: nat, k: nat, n: nat)
    requires k <= n
    ensures ToBits(ClearLow(o, k), n) == ToBits(o, n)[..n - k] + Zeros(k)
  {
    if k > 0 {
      ClearLowBits(o / 2, k - 1, n - 1);
      assert ToBits(o, n)[..n - k] == ToBits(o / 2, n - 1)[..n - k];
      assert Zeros(k) == Zeros(k - 1) + [0];
    } else {
      assert ToBits(o, n)[..n] == ToBits(o, n);
    }
  }

  /** The string with the low k bits of its last octet cleared. */
  function Masked(buf: seq<octet>, k: nat): seq<octet> {
    if buf == [] then [] else buf[..|buf| - 1] + [ClearLow(buf[|buf| - 1], k)]
  }

  /** The check at the end of a BIT STRING; None is its failure. */
  function Finish(v: BitStr): Option<BitStr> {
    if v.buf != [] then
      if v.unused > 7 then None else Some(BitStr(Masked(v.buf, v.unused), v.unused))
    else if v.unused != 0 then None
    else Some(v)
  }

  /** What is accepted is a value, with the bits received and nothing in its unused ones. */
  lemma FinishCleans(v: BitStr)
    ensures Finish(v).Some? <==> v.Valid()
    ensures v.Valid() ==>
              var r := Finish(v).value;
              r.Valid() && r.Clean() && r.Bits() == v.Bits() && (r == v <==> v.Clean())
  {
    hide OctetBits, ToBits;
    if v.Valid() && v.buf != [] {
      MaskedBits(v);
      var r := BitStr(Masked(v.buf, v.unused), v.unused);
      assert v.Bits() == (v.Bits() + Zeros(v.unused))[..|v.Bits()|];
      if v.Clean() {
        PackOctetBits(v.buf);
        PackOctetBits(r.buf);
      }
    }
  }

  lemma MaskedBits(v: BitStr)
    requires v.Valid() && v.buf != []
    ensures OctetBits(Masked(v.buf, v.unused)) == v.Bits() + Zeros(v.unused)
  {
    hide OctetBits, ToBits;
    var n := |v.buf| - 1;
    var head, last := v.buf[..n], v.buf[n];
    assert v.buf == head + [last];
    OctetBitsConcat(head, [last]);
    OctetBitsConcat(head, [ClearLow(last, v.unused)]);
    OneOctet(last);
    OneOctet(ClearLow(last, v.unused));
    ClearLowBits(last, v.unused, 8);
    assert v.Bits() == OctetBits(head) + ToBits(last, 8)[..8 - v.unused];
  }

  // ----- what the DER encoder writes ---------------------------------------------------------

  /** The contents octets `OCTET_STRING_encode_der` writes. */
  function Contents(bitString: bool, v: BitStr): seq<octet> {
    if bitString then
      [v.unused % 8] + (if v.unused % 8 != 0 && v.buf != [] then Masked(v.buf, v.unused) else v.buf)
    else v.buf
  }

  /** The contents of an OCTET STRING come back unchanged, in whatever pieces they arrive. */
  lemma OctetRoundTrip(v: BitStr, pieces: seq<seq<octet>>)
    requires |v.buf| < MAX_SIZE && pieces != [] && Contents(false, v) <= Join(pieces)
    requires forall p :: p in pieces ==> |p| < 2 * MAX_SIZE
    ensures var r := Feed(false, Start(v.unused, |v.buf|), pieces);
            r.Complete? && r.consumed == |v.buf| && r.state.value == v
  {
    hide Feed;
    assert [] + Join(pieces) == Join(pieces);
    AnySplit(false, v.unused, v.buf, [], Start(v.unused, |v.buf|), pieces);
  }

  /** The contents of a BIT STRING come back as the same bits, the unused ones zero. */
  lemma BitRoundTrip(v: BitStr, pieces: seq<seq<octet>>, unused: nat)
    requires v.Valid() && |v.buf| < MAX_SIZE && pieces != [] && Contents(true, v) <= Join(pieces)
    requires forall p :: p in pieces ==> |p| < 2 * MAX_SIZE
    ensures var r := Feed(true, Start(unused, |v.buf| + 1), pieces);
            && r.Complete? && r.consumed == |v.buf| + 1
            && Finish(r.state.value).Some?
            && var w := Finish(r.state.value).value;
               w.Valid() && w.Clean() && w.Bits() == v.Bits() && (w == v <==> v.Clean())
  {
    hide Feed, OctetBits, Contents, Given, Finish;
    var c := Contents(true, v);
    ContentsGiven(v, unused);
    assert [] + Join(pieces) == Join(pieces);
    AnySplit(true, unused, c, [], Start(unused, |v.buf| + 1), pieces);
    FinishCleans(v);
    FinishCleans(Given(true, unused, c));
  }

  lemma ContentsGiven(v: BitStr, unused: nat)
    requires v.Valid()
    ensures var c := Contents(true, v);
            && |c| == |v.buf| + 1 && c != []
            && Finish(v).Some? && Given(true, unused, c) == if v.unused != 0 then Finish(v).value else v
  {
    assert Contents(true, v)[1..] == if v.unused != 0 then Masked(v.buf, v.unused) else v.buf;
  }

  // ----- the decoder ---------------------------------------------------------------------

  datatype Code = OK | WMORE | FAIL

  /** The structure being filled, and the decoding context kept inside it. */
  class Decoder {
    var buf: array?<octet>
    var size: nat
    var bitsUnused: nat
    var context: nat
    var left: nat

    /** `context` octets are allocated, one more than are in use at least, and a NUL follows those. */
    ghost predicate Valid()
      reads this, buf
    {
      if context == 0 then buf == null && size == 0
      else buf != null && buf.Length == context && size < context && buf[size] == 0
    }

    ghost function State(): Intake
      requires Valid()
      reads this, buf
    {
      Intake(BitStr(if buf == null then [] else buf[..size], bitsUnused), context, left)
    }

    constructor (length: nat)
      ensures Valid() && State() == Start(0, length)
    {
      buf, size, bitsUnused, context, left := null, 0, 0, 0, length;
    }

    /** The APPEND macro: false is RC_FAIL. */
    method AppendOctets(chunk: seq<octet>) returns (ok: bool)
      requires Valid()
      modifies this, buf
      ensures bitsUnused == old(bitsUnused) && left == old(left)
      ensures buf == old(buf) || fresh(buf)
      ensures match Append(old(State()), chunk)
              case None => !ok
              case Some(s) => ok && Valid() && State() == s
    {
      var es, ns := size + |chunk|, context;
      if NegativeInt(es) { return false; }
      if ns <= es {
        ns := Doubling(ns, es);
        if NegativeInt(ns) { return false; }
        Reallocate(ns);
      }
      ghost var before := buf[..size];
      CopyIn(buf, size, chunk);
      buf[es] := 0;
      assert buf[..es] == before + chunk;
      size := es;
      ok := true;
    }

    /** `REALLOC(st->buf, ns)` */
    method Reallocate(ns: nat)
      requires Valid() && size < ns
      modifies this
      ensures fresh(buf) && buf != null && buf.Length == ns == context
      ensures size == old(size) && bitsUnused == old(bitsUnused) && left == old(left)
      ensures buf[..size] == old(State()).value.buf
    {
      var grown := new octet[ns];
      if buf != null {
        forall i | 0 <= i < size { grown[i] := buf[i]; }
        assert grown[..size] == buf[..size];
      }
      buf, context := grown, ns;
    }

    /** Phase 3 on the data at hand; OK goes on to the final check. */
    method Phase3(bitString: bool, data: seq<octet>) returns (code: Code, consumed: nat)
      requires Valid()
      modifies this, buf
      ensures buf == old(buf) || fresh(buf)
      ensures match TakeIn(bitString, old(State()), data)
              case Failure => code == FAIL
              case More(c, s) => code == WMORE && consumed == c && Valid() && State() == s
              case Complete(c, s) => code == OK && consumed == c && Valid() && State() == s
    {
      hide Append;
      var rest := data;
      consumed := 0;
      if |data| < left {
        if |data| == 0 { return WMORE, 0; }
        if bitString && context == 0 {
          bitsUnused := rest[0];
          left := left - 1;
          rest, consumed := rest[1..], 1;
        }
        var ok := AppendOctets(rest);
        if !ok { return FAIL, consumed; }
        left := left - |rest|;
        return WMORE, consumed + |rest|;
      }
      if bitString && context == 0 && left != 0 {
        bitsUnused := rest[0];
        left := left - 1;
        rest, consumed := rest[1..], 1;
      }
      var ok := AppendOctets(rest[..left]);
      if !ok { return FAIL, consumed; }
      consumed := consumed + left;
      left := 0;
      code := OK;
    }

    /** The BIT STRING part of the end: false is RC_FAIL. */
    method FinishBits() returns (ok: bool)
      requires Valid() && context > 0
      modifies buf
      ensures Valid()
      ensures match Finish(old(State()).value)
              case None => !ok && State() == old(State())
              case Some(v) => ok && State() == old(State()).(value := v)
    {
      if size > 0 {
        if bitsUnused > 7 { return false; }
        ghost var before := buf[..size];
        buf[size - 1] := ClearLow(buf[size - 1], bitsUnused);
        assert buf[..size] == Masked(before, bitsUnused);
      } else if bitsUnused != 0 {
        return false;
      }
      ok := true;
    }
  }

  /** The doubling loop, which ends. */
  method Doubling(ns: nat, es: nat) returns (r: nat)
    requires ns <= es
    ensures r == Doubled(ns, es)
  {
    r := if ns == 0 then 16 else 2 * ns;
    while r <= es
      invariant r > 0 && Doubled(ns, es) == if r <= es then Doubled(r, es) else r
      decreases es - r
    {
      r := 2 * r;
    }
  }

  /** `memcpy(buf + at, chunk, |chunk|)` */
  method CopyIn(buf: array<octet>, at: nat, chunk: seq<octet>)
    requires at + |chunk| <= buf.Length
    modifies buf
    ensures buf[..at + |chunk|] == old(buf[..at]) + chunk
  {
    forall i | 0 <= i < |chunk| { buf[at + i] := chunk[i]; }
    assert buf[..at + |chunk|] == old(buf[..at]) + chunk;
  }
}
