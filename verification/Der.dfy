/** One DER element: the printer `derTLV` and the reader `derCursor.read`, on values. */
module Der {
  import opened Results
  import opened Octets

  const TAG_INTEGER: byte := 0x02
  const TAG_OCTETS: byte := 0x04
  const TAG_OID: byte := 0x06
  const TAG_UTF8: byte := 0x0C
  const TAG_IA5: byte := 0x16
  const TAG_VISIBLE: byte := 0x1A
  const TAG_BMP: byte := 0x1E
  const TAG_SEQUENCE: byte := 0x30

  const TWO_32: int := 0x1_0000_0000

  /** Length octets (X.690 section 8.1.3, shortest form). */
  function DerLen(n: nat): bytes {
    if n < 128 then [n] else [128 + |UnsignedOctets(n)| % 128] + UnsignedOctets(n)
  }

  function Tlv(tag: byte, content: bytes): bytes {
    [tag] + DerLen(|content|) + content
  }

  datatype Element = Element(tag: byte, content: bytes, rest: bytes)

  /** The element in front of `s`. Length octets need not be shortest; there are at most four. */
  function ReadElement(s: bytes): (r: Result<Element>)
    ensures r.Ok? ==> |r.value.rest| + 2 <= |s| && |r.value.content| + 2 <= |s|
  {
    if |s| < 2 then Err
    else if s[1] < 128 then TakeContent(s, 2, s[1])
    else
      var k := s[1] - 128;
      if k == 0 || k > 4 || 2 + k > |s| then Err
      else TakeContent(s, 2 + k, BigEndian(s[2..2 + k]))
  }

  function TakeContent(s: bytes, at: nat, length: nat): (r: Result<Element>)
    requires 2 <= at <= |s|
    ensures r.Ok? ==> |r.value.rest| + 2 <= |s| && |r.value.content| + 2 <= |s|
  {
    if at + length > |s| then Err else Ok(Element(s[0], s[at..at + length], s[at + length..]))
  }

  lemma PowersOf256()
    ensures Pow256(4) == TWO_32 && 2 * Pow256(7) < TWO_63 < Pow256(8)
  {
    assert Pow256(1) == 0x100 && Pow256(2) == 0x1_0000 && Pow256(3) == 0x100_0000;
    assert Pow256(5) == 256 * Pow256(4) && Pow256(6) == 256 * Pow256(5);
    assert Pow256(7) == 256 * Pow256(6) && Pow256(8) == 256 * Pow256(7);
  }

  /** How many length octets follow the first one. */
  lemma LongLength(n: nat)
    requires 128 <= n < TWO_63
    ensures var k := |UnsignedOctets(n)|; 1 <= k <= 8 && (k <= 4 <==> n < TWO_32)
  {
    PowersOf256();
    UnsignedOctetsFit(n, 4);
    UnsignedOctetsFit(n, 8);
    UnsignedOctetsLead(n);
  }

  lemma ReadShortTlv(tag: byte, content: bytes, rest: bytes)
    requires |content| < 128
    ensures ReadElement(Tlv(tag, content) + rest) == Ok(Element(tag, content, rest))
  {
    var n := |content|;
    var s := Tlv(tag, content) + rest;
    assert s == [tag, n] + content + rest;
    assert s[2..2 + n] == content && s[2 + n..] == rest;
  }

  lemma ReadMediumTlv(tag: byte, content: bytes, rest: bytes)
    requires 128 <= |content| < TWO_32
    ensures ReadElement(Tlv(tag, content) + rest) == Ok(Element(tag, content, rest))
  {
    var o := UnsignedOctets(|content|);
    LongLength(|content|);
    BigEndianOfOctets(|content|);
    assert Tlv(tag, content) + rest == [tag, 128 + |o|] + o + content + rest;
    ReadLongForm(tag, o, content, rest);
  }

  lemma TakeFront(s: bytes, at: nat, content: bytes, rest: bytes)
    requires 2 <= at <= |s| && s[at..] == content + rest
    ensures TakeContent(s, at, |content|) == Ok(Element(s[0], content, rest))
  {
    var t := s[at..];
    assert s[at..at + |content|] == t[..|content|] && s[at + |content|..] == t[|content|..];
  }

  lemma ReadLongForm(tag: byte, o: bytes, content: bytes, rest: bytes)
    requires 1 <= |o| <= 4 && BigEndian(o) == |content|
    ensures ReadElement([tag, 128 + |o|] + o + content + rest) == Ok(Element(tag, content, rest))
  {
    var head: bytes := [tag, 128 + |o|];
    var tail := content + rest;
    var s := head + o + tail;
    assert s == head + o + content + rest;
    assert s[2..2 + |o|] == o && s[2 + |o|..] == tail;
    TakeFront(s, 2 + |o|, content, rest);
  }

  /** The reader undoes the printer when the content is shorter than 2^32 octets. */
  lemma ReadTlv(tag: byte, content: bytes, rest: bytes)
    requires |content| < TWO_32
    ensures ReadElement(Tlv(tag, content) + rest) == Ok(Element(tag, content, rest))
  {
    if |content| < 128 {
      ReadShortTlv(tag, content, rest);
    } else {
      ReadMediumTlv(tag, content, rest);
    }
  }

  /** Longer content is printed with five or more length octets, which the reader refuses. */
  lemma ReadLongTlv(tag: byte, content: bytes, rest: bytes)
    requires TWO_32 <= |content| < TWO_63
    ensures ReadElement(Tlv(tag, content) + rest).Err?
  {
    var n := |content|;
    LongLength(n);
    var s := Tlv(tag, content) + rest;
    assert s[1] == 128 + |UnsignedOctets(n)|;
  }

  /** The whole element is at most 2^32 + 5 octets long exactly when its content is below 2^32. */
  lemma TlvLength(tag: byte, content: bytes)
    ensures |content| + 2 <= |Tlv(tag, content)|
    ensures |Tlv(tag, content)| < TWO_32 + 6 <==> |content| < TWO_32
  {
    if |content| >= 128 {
      PowersOf256();
      UnsignedOctetsFit(|content|, 4);
      UnsignedOctetsLead(|content|);
    }
  }

  lemma LongHead(tag: byte, content: bytes, rest: bytes)
    requires 128 <= |content| < TWO_63
    ensures var o, s := UnsignedOctets(|content|), Tlv(tag, content) + rest;
            1 <= |o| <= 8 && BigEndian(o) == |content| && |s| >= 2 + |o|
            && s[0] == tag && s[1] == 128 + |o| && s[2..2 + |o|] == o && s[2 + |o|..] == content + rest
  {
    var o := UnsignedOctets(|content|);
    LongLength(|content|);
    BigEndianOfOctets(|content|);
    TlvInThree(tag, content, rest);
    hide Tlv, UnsignedOctets, BigEndian;
    ThreeParts([tag, 128 + |o|], o, content + rest);
  }

  lemma TlvInThree(tag: byte, content: bytes, rest: bytes)
    requires 128 <= |content| && |UnsignedOctets(|content|)| < 128
    ensures var o := UnsignedOctets(|content|);
            Tlv(tag, content) + rest == [tag, 128 + |o|] + o + (content + rest)
  {
  }

  lemma ThreeParts(head: bytes, middle: bytes, tail: bytes)
    requires |head| == 2
    ensures var s := head + middle + tail;
            s[0] == head[0] && s[1] == head[1] && s[2..2 + |middle|] == middle && s[2 + |middle|..] == tail
  {
  }

  lemma ShortHead(tag: byte, content: bytes, rest: bytes)
    requires |content| < 128
    ensures var s := Tlv(tag, content) + rest;
            |s| >= 2 && s[0] == tag && s[1] == |content| && s[2..] == content + rest
  {
    assert Tlv(tag, content) + rest == [tag, |content|] + (content + rest);
  }

  lemma SameFront(a: bytes, b: bytes, c: bytes, d: bytes)
    requires a + b == c + d && |a| == |c|
    ensures a == c && b == d
  {
    assert a == (a + b)[..|a|] && b == (a + b)[|a|..];
  }

  /** An element shows where it ends: whatever follows, equal octets start with equal elements. */
  lemma Cut(tag: byte, content: bytes, rest: bytes, tag': byte, content': bytes, rest': bytes)
    requires Tlv(tag, content) + rest == Tlv(tag', content') + rest' && |Tlv(tag, content) + rest| < TWO_63
    ensures tag == tag' && content == content' && rest == rest'
  {
    TlvLength(tag, content);
    TlvLength(tag', content');
    if |content| < 128 {
      ShortHead(tag, content, rest);
    } else {
      LongHead(tag, content, rest);
    }
    if |content'| < 128 {
      ShortHead(tag', content', rest');
    } else {
      LongHead(tag', content', rest');
    }
    hide Tlv, UnsignedOctets, BigEndian;
    SameFront(content, rest, content', rest');
  }
}
