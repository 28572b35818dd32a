/**
  NativeInteger: INTEGER held in a machine `long`, encoded by padding to eight
  octets and handing them to the INTEGER encoder.
 */
module NativeInteger {
  import opened Octets
  import opened Integer

  /** The padding loop of `NativeInteger_encode_der`: last octet first, shifting the value down. */
  method PadToEight(native: int) returns (buf: array<octet>)
    requires FitsUmax(native)
    ensures fresh(buf) && buf[..] == OctetsOf(native, 8)
  {
    buf := new octet[8](_ => 0);
    ghost var octets := OctetsOf(native, 8);
    var p, rest := 7, native;
    while p >= 0
      invariant -1 <= p <= 7 && rest >= 0 && rest == ShiftOctets(native, 7 - p)
      invariant forall k :: p < k < 8 ==> buf[k] == octets[k]
    {
      hide OctetsOf;
      OctetsOfAt(native, 8, p);
      ShiftOctetsNext(native, 7 - p);
      buf[p] := rest % 256;
      rest, p := rest / 256, p - 1;
    }
  }

  /** `NativeInteger_encode_der`: the native value is taken as unsigned, without sign extension. */
  method EncodeDer(native: int) returns (contents: seq<octet>)
    requires FitsUmax(native)
    ensures contents == Der(ToImax(native))
  {
    var buf := PadToEight(native);
    var tmp := new IntegerT();
    tmp.buf, tmp.size := buf, 8;
    assert tmp.Contents() == OctetsOf(native, 8);
    SignedOfPattern(native);
    contents := Integer.EncodeDer(tmp);
  }

  /** The value part of `NativeInteger_decode_ber`. */
  method DecodeBerValue(contents: seq<octet>, fieldUnsigned: bool) returns (native: Option<int>)
    ensures native == Native(contents, fieldUnsigned)
  {
    var tmp := new IntegerT();
    tmp.buf := new octet[|contents|](i requires 0 <= i < |contents| => contents[i]);
    tmp.size := |contents|;
    assert tmp.Contents() == contents;
    if fieldUnsigned {
      native := ToUintmax(tmp);
    } else {
      native := ToIntmax(tmp);
    }
  }

  /** A signed native integer survives DER. */
  lemma SignedRoundTrip(v: int)
    requires FitsImax(v)
    ensures Native(Der(ToImax(ToUmax(v))), false) == Some(v)
  {
    hide Der, Signed, Unsigned;
    DerIsCanonical(v);
  }

  /**
    An unsigned native integer survives DER exactly when its nine leading bits
    are not all ones: otherwise the encoder strips octets that the unsigned
    decoder does not put back.
   */
  lemma UnsignedRoundTrip(u: int)
    requires FitsUmax(u)
    ensures Native(Der(ToImax(u)), true) == Some(u) <==> u < 0xff80_0000_0000_0000
  {
    var w := ToImax(u);
    var s := Der(w);
    Pow256At7And8();
    DerIsCanonical(w);
    SignedBound(s);
    MinimalFits(s);
    if u > IMAX_MAX {
      assert Unsigned(s) == w + Pow256(|s|);
      if |s| == 8 {
        MinimalIsLarge(s);
      } else {
        Pow256Monotone(|s| - 1, 6);
        Pow256Monotone(|s|, 7);
      }
    }
  }

  /** The encoding of 2^64-1 is the single octet ff, which decodes to 255. */
  lemma UnsignedMaximumIsLost()
    ensures Der(ToImax(UMAX_MAX)) == [0xff]
    ensures Native([0xff], true) == Some(255)
  {
    assert ToImax(UMAX_MAX) == -1;
    assert [0xff][..0] == [];
  }
}
