/** SM2 ciphertexts between DER and the raw orders C1C3C2 and C1C2C3. */
module Sm2Ciphertexts {
  import opened Results
  import opened Octets
  import opened AsnShapes
  import opened Der

  const COORD: nat := 32
  const HASH: nat := 32
  const UNCOMPRESSED_LEN: nat := 65
  const COMPRESSED_LEN: nat := 33

  /** The library's point expansion: 33 octets to 65, or a failure. */
  type Expander = bytes -> Result<bytes>

  ghost predicate ExpandsPoints(expand: Expander) {
    forall p: bytes :: expand(p).Ok? ==> |expand(p).value| == UNCOMPRESSED_LEN && expand(p).value[0] == 4
  }

  datatype Coordinates = Coordinates(x: bytes, y: bytes)

  datatype Cipher = Cipher(c1: bytes, hash: bytes, c2: bytes, point: Option<Coordinates>)

  /** Negative coordinates count by their absolute value; octets after the SEQUENCE are ignored. */
  function ParseDer(ct: bytes): Result<Cipher> {
    var d :- DecodeQuad(ct);
    var x, y := UnsignedOctets(Abs(d.0.x)), UnsignedOctets(Abs(d.0.y));
    if |x| > COORD || |y| > COORD then Err
    else
      var p := Coordinates(LeftPad(x, COORD), LeftPad(y, COORD));
      Ok(Cipher([4] + p.x + p.y, d.0.hash, d.0.text, Some(p)))
  }

  function Abs(v: int): nat {
    if v < 0 then -v else v
  }

  function PointLength(ct: bytes): Result<nat> {
    if ct == [] then Err
    else if ct[0] == 4 then Ok(UNCOMPRESSED_LEN)
    else if ct[0] == 2 || ct[0] == 3 then Ok(COMPRESSED_LEN)
    else Err
  }

  function PointOf(c1: bytes): Coordinates
    requires |c1| == UNCOMPRESSED_LEN
  {
    Coordinates(c1[1..33], c1[33..65])
  }

  function ParseRaw(ct: bytes, hashFirst: bool, expand: Expander): Result<Cipher>
    requires ExpandsPoints(expand)
  {
    var n :- PointLength(ct);
    if |ct| < n + HASH then Err else
    var full :- if n == COMPRESSED_LEN then expand(ct[..n]) else Ok(ct[..n]);
    var body := ct[n..];
    var k := |body| - HASH;
    Ok(if hashFirst then Cipher(ct[..n], body[..HASH], body[HASH..], Some(PointOf(full)))
       else Cipher(ct[..n], body[k..], body[..k], Some(PointOf(full))))
  }

  function PointFor(c: Cipher, expand: Expander): Result<Coordinates>
    requires ExpandsPoints(expand)
  {
    match c.point
    case Some(p) => Ok(p)
    case None =>
      var full :- expand(c.c1);
      Ok(PointOf(full))
  }

  function BuildDer(c: Cipher, expand: Expander): Result<bytes>
    requires ExpandsPoints(expand)
  {
    var p :- PointFor(c, expand);
    Ok(EncodeQuad(Quad(BigEndian(p.x), BigEndian(p.y), c.hash, c.c2)))
  }

  function BuildRaw(c: Cipher, hashFirst: bool): bytes {
    c.c1 + if hashFirst then c.hash + c.c2 else c.c2 + c.hash
  }

  predicate IsRaw(format: string) {
    format == "c1c3c2" || format == "c1c2c3"
  }

  function Format(ct: bytes, from: string, to: string, expand: Expander): Result<bytes>
    requires ExpandsPoints(expand)
  {
    if from == to then Ok(ct)
    else if from != "der" && !IsRaw(from) then Err
    else
      var c :- if from == "der" then ParseDer(ct) else ParseRaw(ct, from == "c1c3c2", expand);
      if to == "der" then BuildDer(c, expand)
      else if IsRaw(to) then Ok(BuildRaw(c, to == "c1c3c2"))
      else Err
  }

  // ----- properties -----

  function OtherOrder(order: string): string {
    if order == "c1c3c2" then "c1c2c3" else "c1c3c2"
  }

  /** A raw ciphertext is taken if its prefix is known, it is long enough and a compressed point expands. */
  predicate Accepted(ct: bytes, expand: Expander)
    requires ExpandsPoints(expand)
  {
    ct != []
    && ((ct[0] == 4 && |ct| >= UNCOMPRESSED_LEN + HASH)
        || ((ct[0] == 2 || ct[0] == 3) && |ct| >= COMPRESSED_LEN + HASH && expand(ct[..COMPRESSED_LEN]).Ok?))
  }

  /** Swapping the order swaps back, for both point forms, on every ciphertext that is taken. */
  lemma OrdersSwap(ct: bytes, order: string, expand: Expander)
    requires ExpandsPoints(expand) && IsRaw(order)
    ensures var mid := Format(ct, order, OtherOrder(order), expand);
            (mid.Ok? <==> Accepted(ct, expand))
            && (mid.Ok? ==> Format(mid.value, OtherOrder(order), order, expand) == Ok(ct))
  {
    if Accepted(ct, expand) {
      var n := if ct[0] == 4 then UNCOMPRESSED_LEN else COMPRESSED_LEN;
      var c := ParseRaw(ct, order == "c1c3c2", expand).value;
      var mid := BuildRaw(c, order != "c1c3c2");
      assert mid[0] == ct[0] && mid[..n] == ct[..n];
      var body := mid[n..];
      if order == "c1c3c2" {
        assert body == c.c2 + c.hash;
        assert body[..|body| - HASH] == c.c2 && body[|body| - HASH..] == c.hash;
      } else {
        assert body == c.hash + c.c2;
        assert body[..HASH] == c.hash && body[HASH..] == c.c2;
      }
      assert ParseRaw(mid, order != "c1c3c2", expand) == Ok(c);
      RawRebuilt(ct, order == "c1c3c2", expand);
    }
  }

  lemma RawRebuilt(ct: bytes, hashFirst: bool, expand: Expander)
    requires ExpandsPoints(expand) && ParseRaw(ct, hashFirst, expand).Ok?
    ensures BuildRaw(ParseRaw(ct, hashFirst, expand).value, hashFirst) == ct
  {
    var n := PointLength(ct).value;
    var body := ct[n..];
    assert ct == ct[..n] + body;
    assert body == body[..HASH] + body[HASH..];
    assert body == body[..|body| - HASH] + body[|body| - HASH..];
  }

  lemma CoordinateKept(x: bytes)
    requires |x| == COORD
    ensures var o := UnsignedOctets(BigEndian(x)); |o| <= COORD && LeftPad(o, COORD) == x
  {
    OctetsOfBigEndian(x);
    LeftPadStripZeros(x);
  }

  /** The ciphertext with its compressed point replaced by the expanded one. */
  function Expanded(ct: bytes, expand: Expander): bytes
    requires ExpandsPoints(expand) && Accepted(ct, expand)
  {
    if ct[0] == 4 then ct else expand(ct[..COMPRESSED_LEN]).value + ct[COMPRESSED_LEN..]
  }

  /** Expanding changes neither hash nor text nor coordinates, and keeps the ciphertext acceptable. */
  lemma ExpandedParses(ct: bytes, hashFirst: bool, expand: Expander)
    requires ExpandsPoints(expand) && Accepted(ct, expand)
    ensures Accepted(Expanded(ct, expand), expand) && Expanded(ct, expand)[0] == 4
    ensures ParseRaw(ct, hashFirst, expand).Ok?
    ensures ParseRaw(Expanded(ct, expand), hashFirst, expand)
            == Ok(ParseRaw(ct, hashFirst, expand).value.(c1 := Expanded(ct, expand)[..UNCOMPRESSED_LEN]))
  {
    if ct[0] != 4 {
      var full, body := expand(ct[..COMPRESSED_LEN]).value, ct[COMPRESSED_LEN..];
      var big := full + body;
      assert big[..UNCOMPRESSED_LEN] == full && big[UNCOMPRESSED_LEN..] == body;
    }
  }

  /** To DER, a compressed ciphertext and its expansion are the same. */
  lemma CompressedToDer(ct: bytes, order: string, expand: Expander)
    requires ExpandsPoints(expand) && IsRaw(order) && Accepted(ct, expand)
    ensures Format(ct, order, "der", expand).Ok?
    ensures Format(ct, order, "der", expand) == Format(Expanded(ct, expand), order, "der", expand)
  {
    ExpandedParses(ct, order == "c1c3c2", expand);
  }

  lemma DerOfRaw(ct: bytes, hashFirst: bool, expand: Expander)
    requires ExpandsPoints(expand) && ParseRaw(ct, hashFirst, expand).Ok? && ct[0] == 4
    requires var c := ParseRaw(ct, hashFirst, expand).value;
             |BuildDer(c, expand).value| < TWO_63
    ensures var c := ParseRaw(ct, hashFirst, expand).value;
            var der := BuildDer(c, expand).value;
            ParseDer(der) == if |der| < TWO_31 + 6 then Ok(c) else Err
  {
    hide EncodeQuad, DecodeQuad;
    var c := ParseRaw(ct, hashFirst, expand).value;
    var p := c.point.value;
    QuadRoundTrip(Quad(BigEndian(p.x), BigEndian(p.y), c.hash, c.c2));
    CoordinateKept(p.x);
    CoordinateKept(p.y);
    PointKept(c.c1);
  }

  lemma PointKept(c1: bytes)
    requires |c1| == UNCOMPRESSED_LEN && c1[0] == 4
    ensures c1 == [4] + PointOf(c1).x + PointOf(c1).y
  {
  }

  /**
   Through DER and on to either raw order is the same as converting the expanded ciphertext
   directly; for an uncompressed point and the same order that is the identity, leading zeros of
   coordinates included. It fails exactly when the DER exceeds the decoder's length bound.
   */
  lemma ThroughDer(ct: bytes, order: string, target: string, expand: Expander)
    requires ExpandsPoints(expand) && IsRaw(order) && IsRaw(target) && Accepted(ct, expand)
    requires Format(ct, order, "der", expand).Ok? && |Format(ct, order, "der", expand).value| < TWO_63
    ensures var der := Format(ct, order, "der", expand).value;
            Format(der, "der", target, expand)
            == if |der| < TWO_31 + 6 then Format(Expanded(ct, expand), order, target, expand) else Err
    ensures ct[0] == 4 ==> Format(Expanded(ct, expand), order, order, expand) == Ok(ct)
  {
    CompressedToDer(ct, order, expand);
    ExpandedParses(ct, order == "c1c3c2", expand);
    var big := Expanded(ct, expand);
    DerOfRaw(big, order == "c1c3c2", expand);
    RawRebuilt(big, order == "c1c3c2", expand);
  }

  /** Decoded fields are taken exactly when both coordinates fit in 32 octets. */
  lemma DerAccepted(ct: bytes)
    requires DecodeQuad(ct).Ok?
    ensures var q := DecodeQuad(ct).value.0;
            ParseDer(ct).Ok? <==> Abs(q.x) < Pow256(COORD) && Abs(q.y) < Pow256(COORD)
  {
    var q := DecodeQuad(ct).value.0;
    hide DecodeQuad, Pow256;
    UnsignedOctetsFit(Abs(q.x), COORD);
    UnsignedOctetsFit(Abs(q.y), COORD);
  }

  /** A SEQUENCE of the four fields, with coordinates of 32 octets at most, anything inside and anything behind. */
  predicate IsLooseQuad(ct: bytes, q: Quad, inside: bytes, behind: bytes) {
    Abs(q.x) < Pow256(COORD) && Abs(q.y) < Pow256(COORD) && |QuadContent(q) + inside| < TWO_31
    && ct == Tlv(TAG_SEQUENCE, QuadContent(q) + inside) + behind
  }

  /** Of all inputs exactly these are accepted. */
  lemma ParseDerAccepts(ct: bytes)
    ensures ParseDer(ct).Ok? <==> exists q, inside, behind :: IsLooseQuad(ct, q, inside, behind)
  {
    if ParseDer(ct).Ok? {
      var inside := DecodeQuadExact(ct);
      var (q, behind) := DecodeQuad(ct).value;
      DerAccepted(ct);
      hide Tlv, QuadContent, ParseDer;
      assert IsLooseQuad(ct, q, inside, behind);
    }
    if exists q, inside, behind :: IsLooseQuad(ct, q, inside, behind) {
      var q, inside, behind :| IsLooseQuad(ct, q, inside, behind);
      LooseQuadRead(q, inside, behind);
      DerAccepted(ct);
    }
  }

  /** What the parser makes of any DER it takes, and what building that again gives. */
  lemma ParsedDer(ct: bytes, expand: Expander)
    requires ExpandsPoints(expand) && ParseDer(ct).Ok?
    ensures var q, c := DecodeQuad(ct).value.0, ParseDer(ct).value;
            c.hash == q.hash && c.c2 == q.text
            && |c.c1| == UNCOMPRESSED_LEN && c.c1[0] == 4 && c.point == Some(PointOf(c.c1))
            && BuildDer(c, expand) == Ok(EncodeQuad(q.(x := Abs(q.x), y := Abs(q.y))))
  {
    hide DecodeQuad;
    var q, c := DecodeQuad(ct).value.0, ParseDer(ct).value;
    PaddedCoordinate(Abs(q.x));
    PaddedCoordinate(Abs(q.y));
    PointBuilt(c);
  }

  /**
   Every DER ciphertext that is taken converts to both raw orders, and back to itself exactly when
   it is the plain encoding of its fields, no coordinate is negative and the hash has 32 octets. The
   parser checks none of these: extra octets behind the fields or behind the SEQUENCE, a sign and
   another hash length are accepted and lost.
   */
  lemma DerRawDer(ct: bytes, order: string, expand: Expander)
    requires ExpandsPoints(expand) && IsRaw(order) && ParseDer(ct).Ok? && |ct| < TWO_63
    ensures var raw := Format(ct, "der", order, expand);
            var q := DecodeQuad(ct).value.0;
            raw.Ok? && (Format(raw.value, order, "der", expand) == Ok(ct)
                        <==> ct == EncodeQuad(q) && 0 <= q.x && 0 <= q.y && |q.hash| == HASH)
  {
    FromDer(ct, order, expand);
    ParsedDer(ct, expand);
    var q, c := DecodeQuad(ct).value.0, ParseDer(ct).value;
    hide *;
    var raw := BuildRaw(c, order == "c1c3c2");
    ToDerFrom(raw, order, expand);
    if 0 <= q.x && 0 <= q.y && |q.hash| == HASH {
      AbsKeeps(q);
      ParsedBack(c, order == "c1c3c2", expand);
    }
    if Format(raw, order, "der", expand) == Ok(ct) {
      DerFromRaw(raw, order == "c1c3c2", ct, expand);
    }
  }

  lemma AbsKeeps(q: Quad)
    requires 0 <= q.x && 0 <= q.y
    ensures q.(x := Abs(q.x), y := Abs(q.y)) == q
  {
  }

  /** Every DER that a raw ciphertext converts to, and that can be decoded, is a plain encoding of proper fields. */
  lemma DerFromRaw(ct: bytes, hashFirst: bool, der: bytes, expand: Expander)
    requires ExpandsPoints(expand) && DecodeQuad(der).Ok? && |der| < TWO_63
    requires ParseRaw(ct, hashFirst, expand).Ok? && BuildDer(ParseRaw(ct, hashFirst, expand).value, expand) == Ok(der)
    ensures var q := DecodeQuad(der).value.0;
            der == EncodeQuad(q) && 0 <= q.x && 0 <= q.y && |q.hash| == HASH
  {
    hide EncodeQuad, DecodeQuad, ParseRaw;
    HashLength(ct, hashFirst, expand);
    var c := ParseRaw(ct, hashFirst, expand).value;
    var p := c.point.value;
    QuadRoundTrip(Quad(BigEndian(p.x), BigEndian(p.y), c.hash, c.c2));
  }

  // ----- DER that is taken and does not come back -----

  lemma SmallCoordinate(v: int)
    requires -1 <= v <= 1
    ensures Abs(v) < Pow256(COORD)
  {
    assert Pow256(COORD) == 256 * Pow256(31);
  }

  /** Taken, but not given back: a sign, another hash length, or octets behind the fields or the SEQUENCE. */
  lemma Lost(q: Quad, inside: bytes, behind: bytes, order: string, expand: Expander)
    requires ExpandsPoints(expand) && IsRaw(order) && -1 <= q.x <= 1 && -1 <= q.y <= 1
    requires |QuadContent(q) + inside| < TWO_31 && |behind| < TWO_31
    requires q.x < 0 || q.y < 0 || |q.hash| != HASH || inside != [] || behind != []
    ensures var ct := Tlv(TAG_SEQUENCE, QuadContent(q) + inside) + behind;
            ParseDer(ct).Ok? && Format(ct, "der", order, expand).Ok?
            && Format(Format(ct, "der", order, expand).value, order, "der", expand) != Ok(ct)
  {
    var content := QuadContent(q) + inside;
    var ct := Tlv(TAG_SEQUENCE, content) + behind;
    LooseQuadRead(q, inside, behind);
    SmallCoordinate(q.x);
    SmallCoordinate(q.y);
    DerAccepted(ct);
    PrintedLength(TAG_SEQUENCE, content);
    NotPlain(q, inside, behind);
    hide *;
    DerRawDer(ct, order, expand);
  }

  lemma NotPlain(q: Quad, inside: bytes, behind: bytes)
    requires |QuadContent(q) + inside| < TWO_31
    ensures Tlv(TAG_SEQUENCE, QuadContent(q) + inside) + behind == EncodeQuad(q) ==> inside == [] && behind == []
  {
    hide Tlv, ReadStrict, QuadContent;
    var content := QuadContent(q);
    assert EncodeQuad(q) + [] == EncodeQuad(q);
    ReadStrictTlv(TAG_SEQUENCE, content + inside, behind);
    ReadStrictTlv(TAG_SEQUENCE, content, []);
    assert |content + inside| == |content| + |inside|;
  }

  lemma ShortContent(q: Quad)
    requires -1 <= q.x <= 1 && -1 <= q.y <= 1 && |q.hash| <= HASH && q.text == []
    ensures |QuadContent(q)| < 50
  {
    IntegerOctetsFit(q.x, 1);
    IntegerOctetsFit(q.y, 1);
  }

  lemma ShortHashIsLost(expand: Expander)
    requires ExpandsPoints(expand)
    ensures var ct := EncodeQuad(Quad(1, 1, [], []));
            ParseDer(ct).Ok? && Format(ct, "der", "c1c3c2", expand).Ok?
            && Format(Format(ct, "der", "c1c3c2", expand).value, "c1c3c2", "der", expand) != Ok(ct)
  {
    var q := Quad(1, 1, [], []);
    ShortContent(q);
    assert QuadContent(q) + [] == QuadContent(q) && EncodeQuad(q) + [] == EncodeQuad(q);
    Lost(q, [], [], "c1c3c2", expand);
  }

  lemma SignIsLost(expand: Expander)
    requires ExpandsPoints(expand)
    ensures var ct := EncodeQuad(Quad(-1, 1, Zeros(HASH), []));
            ParseDer(ct).Ok? && Format(ct, "der", "c1c3c2", expand).Ok?
            && Format(Format(ct, "der", "c1c3c2", expand).value, "c1c3c2", "der", expand) != Ok(ct)
  {
    var q := Quad(-1, 1, Zeros(HASH), []);
    ShortContent(q);
    assert QuadContent(q) + [] == QuadContent(q) && EncodeQuad(q) + [] == EncodeQuad(q);
    Lost(q, [], [], "c1c3c2", expand);
  }

  lemma TrailingOctetIsLost(expand: Expander)
    requires ExpandsPoints(expand)
    ensures var ct := EncodeQuad(Quad(1, 1, Zeros(HASH), [])) + [0];
            ParseDer(ct).Ok? && Format(ct, "der", "c1c3c2", expand).Ok?
            && Format(Format(ct, "der", "c1c3c2", expand).value, "c1c3c2", "der", expand) != Ok(ct)
  {
    var q := Quad(1, 1, Zeros(HASH), []);
    ShortContent(q);
    assert QuadContent(q) + [] == QuadContent(q);
    Lost(q, [], [0], "c1c3c2", expand);
  }

  lemma InnerOctetIsLost(expand: Expander)
    requires ExpandsPoints(expand)
    ensures var ct := Tlv(TAG_SEQUENCE, QuadContent(Quad(1, 1, Zeros(HASH), [])) + [0]);
            ParseDer(ct).Ok? && Format(ct, "der", "c1c3c2", expand).Ok?
            && Format(Format(ct, "der", "c1c3c2", expand).value, "c1c3c2", "der", expand) != Ok(ct)
  {
    var q := Quad(1, 1, Zeros(HASH), []);
    var ct := Tlv(TAG_SEQUENCE, QuadContent(q) + [0]);
    ShortContent(q);
    assert ct + [] == ct;
    Lost(q, [0], [], "c1c3c2", expand);
  }

  lemma FromDer(ct: bytes, order: string, expand: Expander)
    requires ExpandsPoints(expand) && IsRaw(order)
    ensures Format(ct, "der", order, expand)
            == match ParseDer(ct)
               case Err => Err
               case Ok(c) => Ok(BuildRaw(c, order == "c1c3c2"))
  {
    hide ParseDer;
  }

  lemma ToDerFrom(ct: bytes, order: string, expand: Expander)
    requires ExpandsPoints(expand) && IsRaw(order)
    ensures Format(ct, order, "der", expand)
            == match ParseRaw(ct, order == "c1c3c2", expand)
               case Err => Err
               case Ok(c) => BuildDer(c, expand)
  {
    hide ParseRaw;
  }

  lemma PointBuilt(c: Cipher)
    requires c.point.Some? && |c.point.value.x| == COORD && |c.point.value.y| == COORD
    requires c.c1 == [4] + c.point.value.x + c.point.value.y
    ensures |c.c1| == UNCOMPRESSED_LEN && c.c1[0] == 4 && PointOf(c.c1) == c.point.value
  {
  }

  lemma HashLength(ct: bytes, hashFirst: bool, expand: Expander)
    requires ExpandsPoints(expand)
    ensures var c := ParseRaw(ct, hashFirst, expand); c.Ok? ==> |c.value.hash| == HASH && c.value.point.Some?
  {
  }

  lemma ParsedBack(c: Cipher, hashFirst: bool, expand: Expander)
    requires ExpandsPoints(expand)
    requires |c.c1| == UNCOMPRESSED_LEN && c.c1[0] == 4 && |c.hash| == HASH && c.point == Some(PointOf(c.c1))
    ensures ParseRaw(BuildRaw(c, hashFirst), hashFirst, expand) == Ok(c)
  {
    var raw := BuildRaw(c, hashFirst);
    assert raw[..UNCOMPRESSED_LEN] == c.c1;
    var body := raw[UNCOMPRESSED_LEN..];
    if hashFirst {
      assert body == c.hash + c.c2;
    } else {
      assert body == c.c2 + c.hash;
    }
  }

  lemma PaddedCoordinate(v: nat)
    requires |UnsignedOctets(v)| <= COORD
    ensures BigEndian(LeftPad(UnsignedOctets(v), COORD)) == v
  {
    BigEndianOfOctets(v);
    StripZerosLeftPad(UnsignedOctets(v), COORD);
    OctetsOfBigEndian(LeftPad(UnsignedOctets(v), COORD));
    OctetsOfBigEndian(UnsignedOctets(v));
    BigEndianOfOctets(BigEndian(LeftPad(UnsignedOctets(v), COORD)));
  }

  // ----- the conversion over a ciphertext object -----

  class Sm2Cipher {
    var c1: bytes
    var hash: bytes
    var c2: bytes
    var point: Option<Coordinates>

    function Value(): Cipher
      reads this
    {
      Cipher(c1, hash, c2, point)
    }

    constructor (c: Cipher)
      ensures Value() == c
    {
      c1, hash, c2, point := c.c1, c.hash, c.c2, c.point;
    }

    /** Fills in missing coordinates on the way. */
    method ToDer(expand: Expander) returns (r: Result<bytes>)
      requires ExpandsPoints(expand)
      modifies this`point
      ensures r == BuildDer(old(Value()), expand)
      ensures r.Ok? ==> point.Some? && (old(point).Some? ==> point == old(point))
    {
      if point.None? {
        var full := expand(c1);
        if full.Err? {
          return Err;
        }
        point := Some(Coordinates(full.value[1..33], full.value[33..65]));
      }
      var p := point.value;
      return Ok(EncodeQuad(Quad(BigEndian(p.x), BigEndian(p.y), hash, c2)));
    }
  }

  method FormatCiphertext(ct: bytes, from: string, to: string, expand: Expander) returns (r: Result<bytes>)
    requires ExpandsPoints(expand)
    ensures r == Format(ct, from, to, expand)
    ensures r.Ok? && IsRaw(from) && IsRaw(to) ==> Format(r.value, to, from, expand) == Ok(ct)
    ensures r.Ok? && IsRaw(from) && to == "der" ==> Accepted(ct, expand)
  {
    if from == to {
      return Ok(ct);
    }
    if IsRaw(from) && IsRaw(to) {
      OrdersSwap(ct, from, expand);
    }
    var parsed: Result<Cipher>;
    if from == "der" {
      parsed := ParseDer(ct);
    } else if from == "c1c3c2" || from == "c1c2c3" {
      parsed := ParseRaw(ct, from == "c1c3c2", expand);
    } else {
      return Err;
    }
    if parsed.Err? {
      return Err;
    }
    var c := new Sm2Cipher(parsed.value);
    if to == "der" {
      r := c.ToDer(expand);
    } else if to == "c1c3c2" {
      r := Ok(BuildRaw(c.Value(), true));
    } else if to == "c1c2c3" {
      r := Ok(BuildRaw(c.Value(), false));
    } else {
      r := Err;
    }
  }
}
