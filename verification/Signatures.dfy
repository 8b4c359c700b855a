/** SM2 and ECDSA signatures between DER and fixed-width `r || s`. */
module Signatures {
  import opened Results
  import opened Octets
  import opened AsnShapes
  import opened Der

  /** `SEQUENCE { INTEGER r, INTEGER s }` with nothing behind it and no negative component. */
  function Parse(sig: bytes): Result<(bytes, bytes)> {
    var d :- DecodePair(sig);
    if d.1 != [] || d.0.r < 0 || d.0.s < 0 then Err
    else Ok((UnsignedOctets(d.0.r), UnsignedOctets(d.0.s)))
  }

  function Build(r: bytes, s: bytes): Result<bytes> {
    if r == [] || s == [] || BigEndian(r) == 0 || BigEndian(s) == 0 then Err
    else Ok(EncodePair(Pair(BigEndian(r), BigEndian(s))))
  }

  function Join(r: bytes, s: bytes, width: nat): Result<bytes> {
    if |r| > width || |s| > width then Err else Ok(LeftPad(r, width) + LeftPad(s, width))
  }

  predicate Known(format: string) {
    format == "der" || format == "raw"
  }

  function Format(sig: bytes, from: string, to: string, width: int): Result<bytes> {
    if !Known(from) || !Known(to) then Err
    else if from == to then Ok(sig)
    else if from == "der" then
      var rs :- Parse(sig);
      if width <= 0 then Err else Join(rs.0, rs.1, width)
    else if |sig| == 0 || |sig| % 2 != 0 then Err
    else
      var half := |sig| / 2;
      if width != 0 && width != half then Err else Build(sig[..half], sig[half..])
  }

  /** The two copies into a zeroed buffer of twice the width. */
  method JoinRawComponents(r: bytes, s: bytes, width: nat) returns (out: Result<bytes>)
    ensures out == Join(r, s, width)
  {
    if |r| > width || |s| > width {
      return Err;
    }
    var buffer := new byte[2 * width](_ => 0);
    forall i | 0 <= i < |r| {
      buffer[width - |r| + i] := r[i];
    }
    forall i | 0 <= i < |s| {
      buffer[2 * width - |s| + i] := s[i];
    }
    assert buffer[..] == LeftPad(r, width) + LeftPad(s, width);
    return Ok(buffer[..]);
  }

  // ----- properties -----

  lemma HalfKept(half: bytes)
    ensures |UnsignedOctets(BigEndian(half))| <= |half|
    ensures LeftPad(UnsignedOctets(BigEndian(half)), |half|) == half
  {
    OctetsOfBigEndian(half);
    LeftPadStripZeros(half);
  }

  /** raw to DER to raw is the identity exactly when the DER stays within the decoder's length bound. */
  lemma RawDerRaw(sig: bytes, width: int)
    requires Format(sig, "raw", "der", width).Ok?
    requires |Format(sig, "raw", "der", width).value| < TWO_63
    ensures var der := Format(sig, "raw", "der", width).value;
            Format(der, "der", "raw", |sig| / 2) == if |der| < TWO_31 + 6 then Ok(sig) else Err
  {
    hide EncodePair, DecodePair;
    var half := |sig| / 2;
    var r, s := sig[..half], sig[half..];
    PairRoundTrip(Pair(BigEndian(r), BigEndian(s)));
    HalfKept(r);
    HalfKept(s);
    assert r + s == sig;
  }

  /**
   Any DER the builder makes converts to raw exactly when the width holds both components, and
   then converts back to itself.
   */
  lemma BuiltDerRawDer(r: bytes, s: bytes, width: nat)
    requires Build(r, s).Ok? && |Build(r, s).value| < TWO_31 + 6 && width > 0
    ensures var der := Build(r, s).value;
            var raw := Format(der, "der", "raw", width);
            (raw.Ok? <==> |StripZeros(r)| <= width && |StripZeros(s)| <= width)
            && (raw.Ok? ==> |raw.value| == 2 * width && Format(raw.value, "raw", "der", width) == Ok(der))
  {
    hide EncodePair, DecodePair;
    PairRoundTrip(Pair(BigEndian(r), BigEndian(s)));
    OctetsOfBigEndian(r);
    OctetsOfBigEndian(s);
    var a, b := StripZeros(r), StripZeros(s);
    if |a| <= width && |b| <= width {
      PaddedValue(a, BigEndian(r), width);
      PaddedValue(b, BigEndian(s), width);
      Halves(LeftPad(a, width), LeftPad(b, width));
    }
  }

  lemma Halves(a: bytes, b: bytes)
    requires |a| == |b|
    ensures |a + b| / 2 == |a| && (a + b)[..|a|] == a && (a + b)[|a|..] == b
  {
  }

  lemma PaddedValue(a: bytes, v: nat, width: nat)
    requires |a| <= width && a == UnsignedOctets(v)
    ensures BigEndian(LeftPad(a, width)) == v
  {
    BigEndianOfOctets(v);
    ZerosInFront(a, width);
  }

  lemma {:induction false} ZerosInFront(a: bytes, width: nat)
    requires |a| <= width
    ensures BigEndian(LeftPad(a, width)) == BigEndian(a)
    decreases width
  {
    if |a| < width {
      ZerosInFront(a, width - 1);
      BigEndianCons(0, LeftPad(a, width - 1));
      assert LeftPad(a, width) == [0] + LeftPad(a, width - 1);
    } else {
      assert LeftPad(a, width) == a;
    }
  }

  /** Whatever DER is accepted, the two halves of the raw form carry its two integers. */
  lemma RawValues(sig: bytes, width: int)
    requires Format(sig, "der", "raw", width).Ok?
    ensures var raw, p := Format(sig, "der", "raw", width).value, DecodePair(sig).value.0;
            width > 0 && |raw| == 2 * width
            && p.r == BigEndian(raw[..width]) && p.s == BigEndian(raw[width..])
  {
    var p := DecodePair(sig).value.0;
    var a, b := UnsignedOctets(p.r), UnsignedOctets(p.s);
    PaddedValue(a, p.r, width);
    PaddedValue(b, p.s, width);
    Halves(LeftPad(a, width), LeftPad(b, width));
  }

  /**
   Any accepted DER converts back to itself exactly when it is the plain encoding of two nonzero
   integers. Octets behind the second integer inside the SEQUENCE, and zero components, are accepted.
   */
  lemma DerRawDer(sig: bytes, width: int)
    requires Format(sig, "der", "raw", width).Ok? && |sig| < TWO_63
    ensures var raw, p := Format(sig, "der", "raw", width).value, DecodePair(sig).value.0;
            Format(raw, "raw", "der", width) == Ok(sig) <==> sig == EncodePair(p) && p.r > 0 && p.s > 0
  {
    hide EncodePair, DecodePair;
    RawValues(sig, width);
    var raw, p := Format(sig, "der", "raw", width).value, DecodePair(sig).value.0;
    assert |raw| / 2 == width;
  }

  // ----- what is accepted -----

  /** One SEQUENCE, nothing behind it, holding two integers that are not negative and then `inside`. */
  predicate IsLoosePair(sig: bytes, p: Pair, inside: bytes) {
    p.r >= 0 && p.s >= 0 && |PairContent(p) + inside| < TWO_31 && sig == Tlv(TAG_SEQUENCE, PairContent(p) + inside)
  }

  /** Octets behind the integers change neither the components nor the verdict, but no plain encoding has them. */
  lemma LooseParsed(sig: bytes, p: Pair, inside: bytes)
    requires IsLoosePair(sig, p, inside)
    ensures Parse(sig) == Ok((UnsignedOctets(p.r), UnsignedOctets(p.s)))
    ensures sig == EncodePair(p) <==> inside == []
  {
    var content := PairContent(p);
    LoosePairRead(p, inside, []);
    assert sig + [] == sig && content + [] == content;
    hide Tlv, PairContent;
    if sig == EncodePair(p) {
      ReadStrictTlv(TAG_SEQUENCE, content + inside, []);
      ReadStrictTlv(TAG_SEQUENCE, content, []);
      assert |content + inside| == |content| + |inside|;
    }
  }

  /** Of all inputs exactly these are accepted: any other tag, form of length, form of integer or order is refused. */
  lemma ParseAccepts(sig: bytes)
    ensures Parse(sig).Ok? <==> exists p, inside :: IsLoosePair(sig, p, inside)
  {
    if Parse(sig).Ok? {
      var inside := DecodePairExact(sig);
      var p := DecodePair(sig).value.0;
      hide Tlv, PairContent;
      assert Tlv(TAG_SEQUENCE, PairContent(p) + inside) + [] == Tlv(TAG_SEQUENCE, PairContent(p) + inside);
      assert IsLoosePair(sig, p, inside);
    }
    if exists p, inside :: IsLoosePair(sig, p, inside) {
      var p, inside :| IsLoosePair(sig, p, inside);
      LooseParsed(sig, p, inside);
    }
  }

  /** An accepted input is more than two integers exactly when octets follow them inside the SEQUENCE. */
  lemma AcceptedBeyondPairs(sig: bytes)
    ensures Parse(sig).Ok? && (forall p :: sig != EncodePair(p))
            <==> exists p, inside :: inside != [] && IsLoosePair(sig, p, inside)
  {
    ParseAccepts(sig);
    if Parse(sig).Ok? && forall p :: sig != EncodePair(p) {
      var p, inside :| IsLoosePair(sig, p, inside);
      LooseParsed(sig, p, inside);
    }
    if exists p, inside :: inside != [] && IsLoosePair(sig, p, inside) {
      var p, inside :| inside != [] && IsLoosePair(sig, p, inside);
      LooseParsed(sig, p, inside);
      forall q | sig == EncodePair(q) ensures false {
        OnePair(sig, p, inside, q);
      }
    }
  }

  lemma OnePair(sig: bytes, p: Pair, inside: bytes, q: Pair)
    requires IsLoosePair(sig, p, inside) && sig == EncodePair(q)
    ensures p == q
  {
    LoosePairRead(p, inside, []);
    assert sig + [] == sig && PairContent(q) + [] == PairContent(q);
    hide PairContent, DecodePair;
    ReadStrictTlv(TAG_SEQUENCE, PairContent(p) + inside, []);
    Cut(TAG_SEQUENCE, PairContent(q), [], TAG_SEQUENCE, PairContent(p) + inside, []);
    LoosePairRead(q, [], []);
  }

  lemma InnerOctetIsAccepted()
    ensures var sig := Tlv(TAG_SEQUENCE, PairContent(Pair(1, 1)) + [0]);
            Parse(sig) == Ok(([1], [1])) && sig != EncodePair(Pair(1, 1))
  {
    OnePairShort();
    var content := PairContent(Pair(1, 1));
    hide PairContent, UnsignedOctets;
    LoosePairRead(Pair(1, 1), [0], []);
    LoosePairRead(Pair(1, 1), [], []);
    assert Tlv(TAG_SEQUENCE, content + [0]) + [] == Tlv(TAG_SEQUENCE, content + [0]);
    assert |content + [0]| == |content| + 1;
  }

  lemma OnePairShort()
    ensures |PairContent(Pair(1, 1))| < 90 && UnsignedOctets(1) == [1]
  {
    IntegerOctetsFit(1, 1);
  }

  lemma ZeroIsAccepted()
    ensures var sig := EncodePair(Pair(0, 1));
            Parse(sig) == Ok(([], [1])) && Format(sig, "der", "raw", 32).Ok?
            && Format(Format(sig, "der", "raw", 32).value, "raw", "der", 32) != Ok(sig)
  {
    ZeroPairDecoded();
    hide EncodePair, DecodePair, LeftPad, BigEndian;
    DerRawDer(EncodePair(Pair(0, 1)), 32);
  }

  lemma ZeroPairDecoded()
    ensures var sig := EncodePair(Pair(0, 1));
            |sig| < 100 && DecodePair(sig) == Ok((Pair(0, 1), []))
    ensures UnsignedOctets(0) == [] && UnsignedOctets(1) == [1]
  {
    IntegerOctetsFit(0, 1);
    IntegerOctetsFit(1, 1);
    PairRoundTrip(Pair(0, 1));
  }
}
