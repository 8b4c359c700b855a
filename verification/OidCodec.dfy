/** The loops of the OID and INTEGER codecs, each proved to compute its value-level specification. */
module OidCodec {
  import opened Results
  import opened Octets
  import opened Oids

  method EncodeInteger(v: int64) returns (b: bytes)
    ensures b == IntegerOctets(v)
    ensures 1 <= |b| <= 8 && SignedValue(b) == v && Shortest(b)
    ensures forall c: bytes | c != [] && SignedValue(c) == v :: |b| <= |c|
  {
    IntegerForm(v);
    if v == 0 {
      return [0];
    }
    if v > 0 {
      b := BigEndianOctets(v);
      IntegerOfUnsigned(v);
      if b[0] >= 128 {
        b := [0] + b;
      }
      return b;
    }
    b := NegativeOctets(v);
    b := DropSigns(b);
    ShortestIsInteger(b);
  }

  /** The loop both `encodeInteger` and `derLen` use for a positive number. */
  method BigEndianOctets(n: nat) returns (b: bytes)
    ensures b == UnsignedOctets(n)
  {
    b := [];
    var x := n;
    assert UnsignedOctets(n) == UnsignedOctets(x) + b;
    while x > 0
      invariant UnsignedOctets(n) == UnsignedOctets(x) + b
    {
      assert UnsignedOctets(x) + b == UnsignedOctets(x / 256) + ([x % 256] + b);
      b, x := [x % 256] + b, x / 256;
    }
  }

  method DropSigns(octets: bytes) returns (b: bytes)
    requires octets != []
    ensures Shortest(b) && SignedValue(b) == SignedValue(octets)
  {
    b := octets;
    while |b| > 1
      invariant b != [] && SignedValue(b) == SignedValue(octets)
      invariant |b| <= 1 ==> Shortest(b)
      decreases |b|
    {
      if b[0] == 0 && b[1] < 128 {
        DropSign(b);
        b := b[1..];
      } else if b[0] == 255 && b[1] >= 128 {
        DropSign(b);
        b := b[1..];
      } else {
        break;
      }
    }
  }

  lemma IntegerForm(v: int64)
    ensures var b := IntegerOctets(v);
            1 <= |b| <= 8 && SignedValue(b) == v && Shortest(b)
            && forall c: bytes | c != [] && SignedValue(c) == v :: |b| <= |c|
  {
    Int64Octets(v);
    SignedOfInteger(v);
    IntegerIsShortest(v);
    forall c: bytes | c != [] && SignedValue(c) == v ensures |IntegerOctets(v)| <= |c| {
      IntegerOctetsLeast(c);
    }
  }

  /** The eight octets of a negative int64, lowest first to front. */
  method NegativeOctets(v: int64) returns (b: bytes)
    requires v < 0
    ensures |b| == 8 && SignedValue(b) == v
  {
    b := [];
    var x: int := v;
    for i := 0 to 8
      invariant |b| == i && v == x * Pow256(i) + BigEndian(b) && -TWO_63 <= x < 0
    {
      BigEndianCons(x % 256, b);
      MulSplit(x, Pow256(i));
      b := [x % 256] + b;
      x := x / 256;
    }
    EightOctets(v, x, b);
  }

  lemma MulSplit(x: int, p: nat)
    ensures x * p == (x / 256) * (256 * p) + (x % 256) * p
  {
    assert x == 256 * (x / 256) + x % 256;
    assert (256 * (x / 256)) * p == (x / 256) * (256 * p);
  }

  lemma EightOctets(v: int64, x: int, b: bytes)
    requires v < 0 && |b| == 8 && v == x * Pow256(8) + BigEndian(b)
    ensures SignedValue(b) == v
  {
    EightFit(7);
    EightFit(8);
    BigEndianBound(b);
    assert v == x * TWO_64 + BigEndian(b);
    assert x == -1;
    assert b == [b[0]] + b[1..];
    BigEndianCons(b[0], b[1..]);
    BigEndianBound(b[1..]);
    assert BigEndian(b) == b[0] * 0x100_0000_0000_0000 + BigEndian(b[1..]);
  }

  /** A leading sign octet can be dropped when the next one carries the same sign. */
  lemma DropSign(b: bytes)
    requires |b| > 1
    requires (b[0] == 0 && b[1] < 128) || (b[0] == 255 && b[1] >= 128)
    ensures SignedValue(b[1..]) == SignedValue(b)
  {
    assert b == [b[0]] + b[1..];
    BigEndianCons(b[0], b[1..]);
    assert Pow256(|b|) == 256 * Pow256(|b| - 1);
  }

  /** Any one to eight octets give their two's complement value; no step leaves uint64. */
  method DecodeInteger(b: bytes) returns (r: Result<int64>)
    ensures r.Ok? <==> 1 <= |b| <= 8
    ensures r.Ok? ==> r.value == SignedValue(b)
  {
    if |b| == 0 || |b| > 8 {
      return Err;
    }
    var u: nat := 0;
    for i := 0 to |b|
      invariant u == BigEndian(b[..i])
    {
      AccumulateOctet(b, i);
      u := (u * 256 + b[i]) % TWO_64;
    }
    assert b[..|b|] == b;
    AccumulatedValue(b);
    if b[0] >= 128 {
      if |b| == 8 {
        return Ok(u - TWO_64);
      }
      return Ok(u - Shift(8 * |b|));
    }
    if u >= TWO_63 {
      assert false;
      return Err;
    }
    return Ok(u);
  }

  lemma AccumulateOctet(b: bytes, i: nat)
    requires i < |b| <= 8
    ensures BigEndian(b[..i + 1]) == BigEndian(b[..i]) * 256 + b[i] < TWO_64
  {
    assert b[..i + 1] == b[..i] + [b[i]];
    BigEndianSnoc(b[..i], b[i]);
    BigEndianBound(b[..i + 1]);
    EightFit(i + 1);
  }

  lemma AccumulatedValue(b: bytes)
    requires 1 <= |b| <= 8
    ensures SignedValue(b) == if b[0] < 128 then BigEndian(b)
                              else if |b| == 8 then BigEndian(b) - TWO_64
                              else BigEndian(b) - Shift(8 * |b|)
    ensures -TWO_63 <= SignedValue(b) < TWO_63
  {
    EightFit(|b|);
    IntegerOctetsLeast(b);
    Int64Octets(SignedValue(b));
  }

  lemma EightFit(k: nat)
    requires k <= 8
    ensures Pow256(k) <= TWO_64
    ensures k == 8 ==> Pow256(k) == TWO_64
    ensures k == 7 ==> Pow256(k) == 0x100_0000_0000_0000
    ensures Shift(8 * k) == Pow256(k)
  {
    ShiftOctets(k);
    assert Pow256(1) == 0x100 && Pow256(2) == 0x1_0000 && Pow256(3) == 0x100_0000;
    assert Pow256(4) == 0x1_0000_0000 && Pow256(5) == 0x100_0000_0000;
    assert Pow256(6) == 0x1_0000_0000_0000 && Pow256(7) == 0x100_0000_0000_0000;
  }

  /** `1 << bits`. */
  function Shift(bits: nat): nat {
    if bits == 0 then 1 else 2 * Shift(bits - 1)
  }

  lemma {:induction false} ShiftOctets(k: nat)
    ensures Shift(8 * k) == Pow256(k)
  {
    if k > 0 {
      var n := 8 * (k - 1);
      ShiftOctets(k - 1);
      assert Shift(n + 4) == 16 * Shift(n) by {
        assert Shift(n + 2) == 4 * Shift(n);
      }
      assert Shift(n + 8) == 16 * Shift(n + 4) by {
        assert Shift(n + 6) == 4 * Shift(n + 4);
      }
    }
  }

  /** Groups before the continuation bits are set; zero has none. */
  function Plain(v: nat): bytes {
    if v == 0 then [] else Plain(v / 128) + [v % 128]
  }

  lemma {:induction false} GroupsOfPlain(v: nat, mark: byte)
    requires v > 0 && (mark == 0 || mark == 128)
    ensures var p, g := Plain(v), Groups(v, mark);
            |p| == |g| && (forall i :: 0 <= i < |p| ==> p[i] < 128)
            && (forall i :: 0 <= i < |p| - 1 ==> g[i] == p[i] + 128)
            && g[|g| - 1] == p[|p| - 1] + mark
  {
    if v >= 128 {
      GroupsOfPlain(v / 128, 128);
    } else {
      assert Plain(v) == Plain(0) + [v];
    }
  }

  method Base128(v: nat) returns (b: bytes)
    requires v < TWO_64
    ensures b == Oids.Base128(v)
  {
    if v == 0 {
      return [0];
    }
    b := [];
    var x := v;
    assert Plain(v) == Plain(x) + b;
    while x > 0
      invariant Plain(v) == Plain(x) + b
    {
      ConcatAssociates(Plain(x / 128), [x % 128], b);
      b, x := [x % 128] + b, x / 128;
    }
    hide Plain, Oids.Groups;
    GroupsOfPlain(v, 0);
    ghost var p := Plain(v);
    assert b == p;
    for i := 0 to |b| - 1
      invariant |b| == |p|
      invariant forall j :: 0 <= j < i ==> b[j] == p[j] + 128
      invariant forall j :: i <= j < |p| ==> b[j] == p[j]
    {
      b := b[i := b[i] + 128];
    }
    assert b == Oids.Base128(v);
  }

  method ReadBase128(b: bytes) returns (r: Result<Reading>)
    ensures r == Oids.ReadBase128(b)
  {
    var v: nat := 0;
    for i := 0 to |b|
      invariant ReadBase128From(b, i, v) == Oids.ReadBase128(b)
    {
      v := (v * 128 + b[i] % 128) % TWO_64;
      if b[i] < 128 {
        return Ok(Reading(v, i + 1));
      }
      if v > (TWO_64 - 1) / 128 {
        return Err;
      }
    }
    return Err;
  }

  method ParseArcTexts(parts: seq<bytes>) returns (r: Result<seq<nat>>)
    ensures r == ParseParts(parts)
  {
    var arcs: seq<nat> := [];
    PrependNone(ParseParts(parts));
    for i := 0 to |parts|
      invariant ParseParts(parts) == Prepend(arcs, ParseParts(parts[i..]))
    {
      assert parts[i..][1..] == parts[i + 1..];
      var v := ParseUint(parts[i]);
      if v.Err? {
        return Err;
      }
      PrependOne(arcs, v.value, ParseParts(parts[i + 1..]));
      arcs := arcs + [v.value];
    }
    assert arcs + [] == arcs;
    return Ok(arcs);
  }

  method PrintArcs(arcs: seq<nat>) returns (out: bytes)
    requires ValidArcs(arcs)
    ensures out == EncodeArcs(arcs)
  {
    out := Base128(arcs[0] * 40 + arcs[1]);
    for i := 2 to |arcs|
      invariant EncodeArcs(arcs) == out + EncodeTail(arcs[i..])
    {
      assert arcs[i..][1..] == arcs[i + 1..];
      var g := Base128(arcs[i]);
      assert out + (g + EncodeTail(arcs[i + 1..])) == (out + g) + EncodeTail(arcs[i + 1..]);
      out := out + g;
    }
    assert out + [] == out;
  }

  method EncodeOid(text: bytes) returns (r: Result<bytes>)
    ensures r == Oids.EncodeOid(text)
  {
    var t := TrimSpace(text);
    if t == [] {
      return Err;
    }
    var parts := Split(t);
    if |parts| < 2 {
      return Err;
    }
    var parsed := ParseArcTexts(parts);
    if parsed.Err? {
      return Err;
    }
    var arcs := parsed.value;
    if arcs[0] > 2 {
      return Err;
    }
    if arcs[0] < 2 && arcs[1] > 39 {
      return Err;
    }
    if arcs[0] == 2 && arcs[1] > (TWO_64 - 1) / 40 {
      return Err;
    }
    var out := PrintArcs(arcs);
    return Ok(out);
  }

  method DecodeOid(content: bytes) returns (text: bytes)
    ensures text == Oids.DecodeOid(content)
  {
    if |content| == 0 {
      return [];
    }
    var first := ReadBase128(content);
    ReadUsed(content);
    if first.Err? {
      return [];
    }
    var arcs := SplitFirst(first.value.value);
    var rest := content[first.value.used..];
    assert DecodeArcs(content) == Prepend(arcs, DecodeTail(rest));
    while |rest| > 0
      invariant |arcs| >= 2
      invariant DecodeArcs(content) == Prepend(arcs, DecodeTail(rest))
      decreases |rest|
    {
      var v := ReadBase128(rest);
      ReadUsed(rest);
      if v.Err? {
        return [];
      }
      PrependOne(arcs, v.value.value, DecodeTail(rest[v.value.used..]));
      arcs := arcs + [v.value.value];
      rest := rest[v.value.used..];
    }
    assert arcs + [] == arcs;
    var parts: seq<bytes> := [];
    for i := 0 to |arcs|
      invariant parts == Texts(arcs)[..i]
    {
      parts := parts + [Decimal(arcs[i])];
    }
    assert parts == Texts(arcs);
    return Join(parts);
  }
}
