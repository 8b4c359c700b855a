/**
 The two fixed SEQUENCE shapes the converters hand to Go's encoding/asn1: `{ INTEGER, INTEGER }`
 and `{ INTEGER, INTEGER, OCTET STRING, OCTET STRING }`. That decoder wants shortest lengths below
 2^31 and shortest integers; it ignores octets after the last field inside the SEQUENCE and hands
 back those after the SEQUENCE.
 */
module AsnShapes {
  import opened Results
  import opened Octets
  import opened Der

  const TWO_31: int := 0x8000_0000

  /** `b[2..2 + k]` as length octets: no leading zero, no shorter form, below 2^31. */
  predicate StrictLength(o: bytes) {
    o != [] && o[0] != 0 && BigEndian(o[..|o| - 1]) < 0x80_0000 && BigEndian(o) >= 128
  }

  function ReadStrict(s: bytes, tag: byte): (r: Result<Element>)
    ensures r.Ok? ==> |r.value.content| < |s|
  {
    if |s| < 2 || s[0] != tag then Err
    else if s[1] < 128 then TakeContent(s, 2, s[1])
    else
      var k := s[1] - 128;
      if 2 + k > |s| || !StrictLength(s[2..2 + k]) then Err
      else TakeContent(s, 2 + k, BigEndian(s[2..2 + k]))
  }

  datatype Integer = Integer(value: int, rest: bytes)

  function ReadInteger(s: bytes): Result<Integer> {
    var e :- ReadStrict(s, TAG_INTEGER);
    if Shortest(e.content) then Ok(Integer(SignedValue(e.content), e.rest)) else Err
  }

  function PrintInteger(v: int): bytes {
    Tlv(TAG_INTEGER, IntegerOctets(v))
  }

  datatype Pair = Pair(r: int, s: int)

  datatype Quad = Quad(x: int, y: int, hash: bytes, text: bytes)

  function PairContent(p: Pair): bytes {
    PrintInteger(p.r) + PrintInteger(p.s)
  }

  function EncodePair(p: Pair): bytes {
    Tlv(TAG_SEQUENCE, PairContent(p))
  }

  /** The pair and the octets after it. */
  function DecodePair(s: bytes): Result<(Pair, bytes)> {
    var e :- ReadStrict(s, TAG_SEQUENCE);
    var r :- ReadInteger(e.content);
    var t :- ReadInteger(r.rest);
    Ok((Pair(r.value, t.value), e.rest))
  }

  function QuadContent(q: Quad): bytes {
    PrintInteger(q.x) + (PrintInteger(q.y) + (Tlv(TAG_OCTETS, q.hash) + Tlv(TAG_OCTETS, q.text)))
  }

  function EncodeQuad(q: Quad): bytes {
    Tlv(TAG_SEQUENCE, QuadContent(q))
  }

  function DecodeQuad(s: bytes): Result<(Quad, bytes)> {
    var e :- ReadStrict(s, TAG_SEQUENCE);
    var x :- ReadInteger(e.content);
    var y :- ReadInteger(x.rest);
    var hash :- ReadStrict(y.rest, TAG_OCTETS);
    var text :- ReadStrict(hash.rest, TAG_OCTETS);
    Ok((Quad(x.value, y.value, hash.content, text.content), e.rest))
  }

  // ----- decoding what was encoded -----

  lemma LengthOctetsStrict(n: nat)
    requires 128 <= n < TWO_63
    ensures var o := UnsignedOctets(n);
            1 <= |o| <= 8 && BigEndian(o) == n && (StrictLength(o) <==> n < TWO_31)
  {
    LongLength(n);
    BigEndianOfOctets(n);
    BigEndianOfOctets(n / 256);
    UnsignedOctetsLead(n);
    var o := UnsignedOctets(n);
    assert o[..|o| - 1] == UnsignedOctets(n / 256);
  }

  /** The strict reader undoes the printer exactly when the content is shorter than 2^31 octets. */
  lemma ReadStrictTlv(tag: byte, content: bytes, rest: bytes)
    requires |content| < TWO_63
    ensures ReadStrict(Tlv(tag, content) + rest, tag)
            == if |content| < TWO_31 then Ok(Element(tag, content, rest)) else Err
  {
    if |content| < 128 {
      StrictShortForm(tag, content, rest);
    } else {
      var o := UnsignedOctets(|content|);
      LengthOctetsStrict(|content|);
      StrictLongForm(tag, o, content, rest);
      TlvInThree(tag, content, rest);
    }
  }

  lemma StrictShortForm(tag: byte, content: bytes, rest: bytes)
    requires |content| < 128
    ensures ReadStrict(Tlv(tag, content) + rest, tag) == Ok(Element(tag, content, rest))
  {
    var s := Tlv(tag, content) + rest;
    assert s == [tag, |content|] + (content + rest);
    assert s[2..] == content + rest;
    TakeFront(s, 2, content, rest);
  }

  lemma StrictLongForm(tag: byte, o: bytes, content: bytes, rest: bytes)
    requires 1 <= |o| <= 8 && BigEndian(o) == |content|
    ensures ReadStrict([tag, 128 + |o|] + o + (content + rest), tag)
            == if StrictLength(o) then Ok(Element(tag, content, rest)) else Err
  {
    var head: bytes := [tag, 128 + |o|];
    var tail := content + rest;
    var s := head + o + tail;
    assert s[2..2 + |o|] == o && s[2 + |o|..] == tail;
    TakeFront(s, 2 + |o|, content, rest);
  }

  lemma ReadPrintedInteger(v: int, rest: bytes)
    requires |IntegerOctets(v)| < TWO_31
    ensures ReadInteger(PrintInteger(v) + rest) == Ok(Integer(v, rest))
  {
    ReadStrictTlv(TAG_INTEGER, IntegerOctets(v), rest);
    IntegerIsShortest(v);
    SignedOfInteger(v);
  }

  lemma PrintedLength(tag: byte, content: bytes)
    ensures |content| + 2 <= |Tlv(tag, content)|
    ensures |content| < TWO_63 ==> (|Tlv(tag, content)| < TWO_31 + 6 <==> |content| < TWO_31)
  {
    var n := |content|;
    if n >= 128 {
      UnsignedOctetsLead(n);
      if n < TWO_63 {
        LongLength(n);
        if n < 0x100_0000 {
          assert Pow256(1) == 0x100 && Pow256(2) == 0x1_0000 && Pow256(3) == 0x100_0000;
          UnsignedOctetsFit(n, 3);
        } else {
          assert Pow256(1) == 0x100 && Pow256(2) == 0x1_0000 && Pow256(3) == 0x100_0000;
          UnsignedOctetsFit(n, 3);
        }
      }
    }
  }

  /** Decoding an encoded pair gives it back exactly when the encoding is short enough. */
  lemma PairRoundTrip(p: Pair)
    requires |EncodePair(p)| < TWO_63
    ensures DecodePair(EncodePair(p)) == if |EncodePair(p)| < TWO_31 + 6 then Ok((p, [])) else Err
  {
    PrintedLength(TAG_SEQUENCE, PairContent(p));
    assert PairContent(p) + [] == PairContent(p) && EncodePair(p) + [] == EncodePair(p);
    LoosePairRead(p, [], []);
  }

  /** Octets behind the fields are ignored, octets behind the SEQUENCE are handed back. */
  lemma LoosePairRead(p: Pair, inside: bytes, behind: bytes)
    requires |PairContent(p) + inside| < TWO_63
    ensures DecodePair(Tlv(TAG_SEQUENCE, PairContent(p) + inside) + behind)
            == if |PairContent(p) + inside| < TWO_31 then Ok((p, behind)) else Err
  {
    var content := PairContent(p) + inside;
    ReadStrictTlv(TAG_SEQUENCE, content, behind);
    if |content| < TWO_31 {
      PrintedLength(TAG_INTEGER, IntegerOctets(p.r));
      PrintedLength(TAG_INTEGER, IntegerOctets(p.s));
      assert content == PrintInteger(p.r) + (PrintInteger(p.s) + inside);
      ReadPrintedInteger(p.r, PrintInteger(p.s) + inside);
      ReadPrintedInteger(p.s, inside);
    }
  }

  lemma QuadContentRead(q: Quad, inside: bytes)
    requires |QuadContent(q) + inside| < TWO_31
    ensures var text := Tlv(TAG_OCTETS, q.text) + inside;
            var hash := Tlv(TAG_OCTETS, q.hash) + text;
            ReadInteger(QuadContent(q) + inside) == Ok(Integer(q.x, PrintInteger(q.y) + hash))
            && ReadInteger(PrintInteger(q.y) + hash) == Ok(Integer(q.y, hash))
            && ReadStrict(hash, TAG_OCTETS) == Ok(Element(TAG_OCTETS, q.hash, text))
            && ReadStrict(text, TAG_OCTETS) == Ok(Element(TAG_OCTETS, q.text, inside))
  {
    var text := Tlv(TAG_OCTETS, q.text) + inside;
    var hash := Tlv(TAG_OCTETS, q.hash) + text;
    QuadContentParts(q, inside);
    PrintedLength(TAG_INTEGER, IntegerOctets(q.x));
    PrintedLength(TAG_INTEGER, IntegerOctets(q.y));
    PrintedLength(TAG_OCTETS, q.hash);
    PrintedLength(TAG_OCTETS, q.text);
    ReadPrintedInteger(q.x, PrintInteger(q.y) + hash);
    ReadPrintedInteger(q.y, hash);
    ReadStrictTlv(TAG_OCTETS, q.hash, text);
    ReadStrictTlv(TAG_OCTETS, q.text, inside);
  }

  lemma QuadContentParts(q: Quad, inside: bytes)
    ensures QuadContent(q) + inside
            == PrintInteger(q.x) + (PrintInteger(q.y) + (Tlv(TAG_OCTETS, q.hash) + (Tlv(TAG_OCTETS, q.text) + inside)))
  {
    hide Tlv, PrintInteger;
  }

  lemma QuadRoundTrip(q: Quad)
    requires |EncodeQuad(q)| < TWO_63
    ensures DecodeQuad(EncodeQuad(q)) == if |EncodeQuad(q)| < TWO_31 + 6 then Ok((q, [])) else Err
  {
    PrintedLength(TAG_SEQUENCE, QuadContent(q));
    assert QuadContent(q) + [] == QuadContent(q) && EncodeQuad(q) + [] == EncodeQuad(q);
    LooseQuadRead(q, [], []);
  }

  /** Octets behind the fields are ignored, octets behind the SEQUENCE are handed back. */
  lemma LooseQuadRead(q: Quad, inside: bytes, behind: bytes)
    requires |QuadContent(q) + inside| < TWO_63
    ensures DecodeQuad(Tlv(TAG_SEQUENCE, QuadContent(q) + inside) + behind)
            == if |QuadContent(q) + inside| < TWO_31 then Ok((q, behind)) else Err
  {
    var content := QuadContent(q) + inside;
    ReadStrictTlv(TAG_SEQUENCE, content, behind);
    if |content| < TWO_31 {
      QuadContentRead(q, inside);
    }
  }

  // ----- everything that is decoded -----

  lemma ShortFormExact(s: bytes, tag: byte)
    requires ReadStrict(s, tag).Ok? && s[1] < 128
    ensures var e := ReadStrict(s, tag).value;
            |e.content| < 128 && s == Tlv(tag, e.content) + e.rest
  {
    var n := s[1];
    assert s == [s[0], n] + s[2..2 + n] + s[2 + n..];
  }

  lemma StrictLengthExact(o: bytes)
    requires StrictLength(o)
    ensures 128 <= BigEndian(o) < TWO_31 && UnsignedOctets(BigEndian(o)) == o
  {
    var front, last := o[..|o| - 1], o[|o| - 1];
    assert o == front + [last];
    BigEndianSnoc(front, last);
    OctetsOfBigEndian(o);
  }

  lemma LongFormPieces(s: bytes, k: nat, n: nat)
    requires 2 + k + n <= |s|
    ensures s == [s[0], s[1]] + s[2..2 + k] + (s[2 + k..2 + k + n] + s[2 + k + n..])
  {
  }

  lemma LongFormExact(s: bytes, tag: byte)
    requires ReadStrict(s, tag).Ok? && s[1] >= 128
    ensures var e := ReadStrict(s, tag).value;
            |e.content| < TWO_31 && s == Tlv(tag, e.content) + e.rest
  {
    var k := s[1] - 128;
    var o := s[2..2 + k];
    var n := BigEndian(o);
    var e := ReadStrict(s, tag).value;
    StrictLengthExact(o);
    LongFormPieces(s, k, n);
    hide Tlv, UnsignedOctets, BigEndian, StrictLength;
    TlvInThree(tag, e.content, e.rest);
  }

  /** The strict reader takes nothing but what the printer writes, below 2^31 octets of content. */
  lemma ReadStrictExact(s: bytes, tag: byte)
    requires ReadStrict(s, tag).Ok?
    ensures var e := ReadStrict(s, tag).value;
            e.tag == tag && |e.content| < TWO_31 && s == Tlv(tag, e.content) + e.rest
  {
    if s[1] < 128 {
      ShortFormExact(s, tag);
    } else {
      LongFormExact(s, tag);
    }
  }

  lemma ReadIntegerExact(s: bytes)
    requires ReadInteger(s).Ok?
    ensures s == PrintInteger(ReadInteger(s).value.value) + ReadInteger(s).value.rest
  {
    ReadStrictExact(s, TAG_INTEGER);
    ShortestIsInteger(ReadStrict(s, TAG_INTEGER).value.content);
  }

  /** Only a SEQUENCE of two integers is decoded as a pair; `inside` is what follows them in it. */
  lemma DecodePairExact(s: bytes) returns (inside: bytes)
    requires DecodePair(s).Ok?
    ensures var (p, behind) := DecodePair(s).value;
            |PairContent(p) + inside| < TWO_31 && s == Tlv(TAG_SEQUENCE, PairContent(p) + inside) + behind
  {
    var e := ReadStrict(s, TAG_SEQUENCE).value;
    var r := ReadInteger(e.content).value;
    var t := ReadInteger(r.rest).value;
    inside := t.rest;
    ReadStrictExact(s, TAG_SEQUENCE);
    ReadIntegerExact(e.content);
    ReadIntegerExact(r.rest);
    hide Tlv, ReadInteger, PrintInteger;
    assert e.content == PrintInteger(r.value) + PrintInteger(t.value) + inside;
  }

  /** Only a SEQUENCE of two integers and two octet strings is decoded as a quad. */
  lemma DecodeQuadExact(s: bytes) returns (inside: bytes)
    requires DecodeQuad(s).Ok?
    ensures var (q, behind) := DecodeQuad(s).value;
            |QuadContent(q) + inside| < TWO_31 && s == Tlv(TAG_SEQUENCE, QuadContent(q) + inside) + behind
  {
    var e := ReadStrict(s, TAG_SEQUENCE).value;
    var x := ReadInteger(e.content).value;
    var y := ReadInteger(x.rest).value;
    var hash := ReadStrict(y.rest, TAG_OCTETS).value;
    var text := ReadStrict(hash.rest, TAG_OCTETS).value;
    inside := text.rest;
    ReadStrictExact(s, TAG_SEQUENCE);
    ReadIntegerExact(e.content);
    ReadIntegerExact(x.rest);
    ReadStrictExact(y.rest, TAG_OCTETS);
    ReadStrictExact(hash.rest, TAG_OCTETS);
    QuadContentParts(DecodeQuad(s).value.0, inside);
    hide Tlv, ReadInteger, PrintInteger, QuadContent, ReadStrict;
  }
}
