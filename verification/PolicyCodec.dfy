/**
 The certificatePolicies codec as the library runs it: a cursor advanced by `Read`, loops that
 append, and a policy record filled in place. Every method is proved to compute the value-level
 specification in `CertPolicies`.
 */
module PolicyCodec {
  import opened Results
  import opened Octets
  import opened Der
  import opened CertPolicies
  import Oids
  import OidCodec
  import DisplayText

  // ----- printing -----

  method LengthOctets(n: nat) returns (out: bytes)
    ensures out == DerLen(n)
  {
    if n < 128 {
      return [n];
    }
    var tmp := OidCodec.BigEndianOctets(n);
    return [128 + |tmp| % 128] + tmp;
  }

  method PrintTlv(tag: byte, content: bytes) returns (out: bytes)
    ensures out == Tlv(tag, content)
    ensures |content| < TWO_32 ==> ReadElement(out) == Ok(Element(tag, content, []))
  {
    var l := LengthOctets(|content|);
    assert Tlv(tag, content) + [] == Tlv(tag, content);
    if |content| < TWO_32 {
      ReadTlv(tag, content, []);
    }
    return [tag] + l + content;
  }

  method PrintNumbers(numbers: seq<int64>) returns (out: bytes)
    ensures out == EncodeNumbers(numbers)
  {
    out := [];
    assert numbers[0..] == numbers;
    for i := 0 to |numbers|
      invariant EncodeNumbers(numbers) == out + EncodeNumbers(numbers[i..])
    {
      assert numbers[i..][1..] == numbers[i + 1..];
      var octets := OidCodec.EncodeInteger(numbers[i]);
      var one := PrintTlv(TAG_INTEGER, octets);
      ConcatAssociates(out, one, EncodeNumbers(numbers[i + 1..]));
      out := out + one;
    }
    assert out + [] == out;
  }

  method PrintUserNotice(n: UserNotice) returns (r: Result<bytes>)
    ensures r == EncodeUserNotice(n)
  {
    if n.organization == [] && |n.noticeNumbers| == 0 && n.explicitText == [] {
      return Err;
    }
    if |n.noticeNumbers| > 0 && n.organization == [] {
      return Err;
    }
    var body: bytes := [];
    if n.organization != [] {
      var numbers := PrintNumbers(n.noticeNumbers);
      var org := PrintTlv(TAG_UTF8, n.organization);
      var list := PrintTlv(TAG_SEQUENCE, numbers);
      var ref := PrintTlv(TAG_SEQUENCE, org + list);
      body := body + ref;
      assert body == ref;
    }
    if n.explicitText != [] {
      var text := PrintTlv(TAG_UTF8, n.explicitText);
      body := body + text;
    } else {
      assert body == body + [];
    }
    return Ok(body);
  }

  method PrintQualifier(id: bytes, value: bytes) returns (out: bytes)
    ensures out == Qualifier(id, value)
  {
    var oid := PrintTlv(TAG_OID, id);
    out := PrintTlv(TAG_SEQUENCE, oid + value);
  }

  method PrintUris(uris: seq<bytes>) returns (r: Result<bytes>)
    ensures r == if ValidUris(uris) then Ok(EncodeUris(uris)) else Err
  {
    hide Qualifier, IsIa5;
    var quals: bytes := [];
    assert uris[0..] == uris;
    for i := 0 to |uris|
      invariant forall j :: 0 <= j < i ==> uris[j] != [] && IsIa5(uris[j])
      invariant EncodeUris(uris) == quals + EncodeUris(uris[i..])
    {
      assert uris[i..][1..] == uris[i + 1..];
      if uris[i] == [] || !IsIa5(uris[i]) {
        return Err;
      }
      var inner := PrintTlv(TAG_IA5, uris[i]);
      var one := PrintQualifier(CPS_ID, inner);
      ConcatAssociates(quals, one, EncodeUris(uris[i + 1..]));
      quals := quals + one;
    }
    assert quals + [] == quals;
    return Ok(quals);
  }

  method PrintQualifiers(p: CertificatePolicy) returns (r: Result<bytes>)
    ensures r == EncodeQualifiers(p)
  {
    var uris := PrintUris(p.cpsUris);
    if uris.Err? {
      return Err;
    }
    var quals := uris.value;
    assert quals + [] == quals;
    if p.userNotice.Some? {
      var notice := PrintUserNotice(p.userNotice.value);
      if notice.Err? {
        return Err;
      }
      var inner := PrintTlv(TAG_SEQUENCE, notice.value);
      var one := PrintQualifier(NOTICE_ID, inner);
      quals := quals + one;
    }
    if |quals| == 0 {
      return Ok([]);
    }
    var out := PrintTlv(TAG_SEQUENCE, quals);
    return Ok(out);
  }

  method PrintPolicy(p: CertificatePolicy) returns (r: Result<bytes>)
    ensures r == EncodePolicy(p)
  {
    var content := OidCodec.EncodeOid(p.oid);
    if content.Err? {
      return Err;
    }
    var oid := PrintTlv(TAG_OID, content.value);
    var quals := PrintQualifiers(p);
    if quals.Err? {
      return Err;
    }
    var out := PrintTlv(TAG_SEQUENCE, oid + quals.value);
    return Ok(out);
  }

  /** What the policy loop still returns once it has printed `body` and seen `seen`. */
  ghost function Remaining(body: bytes, ps: seq<CertificatePolicy>, seen: set<bytes>): Result<bytes> {
    if EncodeList(ps, seen).Ok? then Ok(body + EncodeList(ps, seen).value) else Err
  }

  lemma RemainingStep(body: bytes, ps: seq<CertificatePolicy>, seen: set<bytes>)
    requires ps != []
    ensures Remaining(body, ps, seen) ==
            if ps[0].oid in seen || EncodePolicy(ps[0]).Err? then Err
            else Remaining(body + EncodePolicy(ps[0]).value, ps[1..], seen + {ps[0].oid})
  {
    var rest := EncodeList(ps[1..], seen + {ps[0].oid});
    if EncodePolicy(ps[0]).Ok? && rest.Ok? {
      ConcatAssociates(body, EncodePolicy(ps[0]).value, rest.value);
    }
  }

  method PrintPolicies(ps: seq<CertificatePolicy>) returns (r: Result<bytes>)
    ensures r == Encode(ps)
  {
    if |ps| == 0 {
      return Err;
    }
    var seen: set<bytes> := {};
    var body: bytes := [];
    assert ps[0..] == ps && Remaining(body, ps, seen) == EncodeList(ps, {}) by {
      if EncodeList(ps, {}).Ok? {
        assert [] + EncodeList(ps, {}).value == EncodeList(ps, {}).value;
      }
    }
    for i := 0 to |ps|
      invariant Remaining(body, ps[i..], seen) == EncodeList(ps, {})
    {
      RemainingStep(body, ps[i..], seen);
      assert ps[i..][1..] == ps[i + 1..];
      if ps[i].oid in seen {
        return Err;
      }
      seen := seen + {ps[i].oid};
      var one := PrintPolicy(ps[i]);
      if one.Err? {
        return Err;
      }
      body := body + one.value;
    }
    assert body + [] == body;
    var out := PrintTlv(TAG_SEQUENCE, body);
    return Ok(out);
  }

  // ----- parsing -----

  function TakeAt(data: bytes, start: nat, at: nat, length: nat): Result<Element>
    requires start < at <= |data|
  {
    if at + length > |data| then Err
    else Ok(Element(data[start], data[at..at + length], data[at + length..]))
  }

  lemma TakeContentAt(data: bytes, start: nat, at: nat, length: nat)
    requires start + 2 <= at <= |data|
    ensures TakeContent(data[start..], at - start, length) == TakeAt(data, start, at, length)
  {
    if at + length <= |data| {
      assert data[start..][at - start..at - start + length] == data[at..at + length];
      assert data[start..][at - start + length..] == data[at + length..];
    }
  }

  /** The element reader in terms of absolute positions. */
  lemma ReadElementAt(data: bytes, start: nat)
    requires start <= |data|
    ensures |data| < start + 2 ==> ReadElement(data[start..]).Err?
    ensures |data| >= start + 2 && data[start + 1] < 128 ==>
              ReadElement(data[start..]) == TakeAt(data, start, start + 2, data[start + 1])
    ensures |data| >= start + 2 && data[start + 1] >= 128 ==>
              var n := data[start + 1] - 128;
              ReadElement(data[start..]) ==
              if n == 0 || n > 4 || start + 2 + n > |data| then Err
              else TakeAt(data, start, start + 2 + n, BigEndian(data[start + 2..start + 2 + n]))
  {
    if |data| >= start + 2 {
      if data[start + 1] < 128 {
        TakeContentAt(data, start, start + 2, data[start + 1]);
      } else if 1 <= data[start + 1] - 128 <= 4 && start + 2 + data[start + 1] - 128 <= |data| {
        var n := data[start + 1] - 128;
        assert data[start..][2..2 + n] == data[start + 2..start + 2 + n];
        TakeContentAt(data, start, start + 2 + n, BigEndian(data[start + 2..start + 2 + n]));
      }
    }
  }

  class DerCursor {
    const data: bytes
    var pos: nat

    ghost predicate Valid()
      reads this
    {
      pos <= |data|
    }

    function Rest(): bytes
      requires Valid()
      reads this
    {
      data[pos..]
    }

    constructor (data: bytes)
      ensures this.data == data && pos == 0 && Valid() && Rest() == data
    {
      this.data := data;
      pos := 0;
    }

    predicate Empty()
      requires Valid()
      reads this
      ensures Empty() <==> Rest() == []
    {
      pos >= |data|
    }

    /** On success the cursor stands right behind the element; on failure it never leaves the data. */
    method Read() returns (r: Result<(byte, bytes)>)
      requires Valid()
      modifies this
      ensures Valid() && pos >= old(pos)
      ensures r.Ok? <==> ReadElement(old(Rest())).Ok?
      ensures r.Ok? ==> var e := ReadElement(old(Rest())).value;
                        r.value == (e.tag, e.content) && Rest() == e.rest && pos > old(pos)
    {
      hide ReadElement, TakeContent, BigEndian;
      ghost var start := pos;
      ReadElementAt(data, start);
      if pos >= |data| {
        return Err;
      }
      var tag := data[pos];
      pos := pos + 1;
      if pos >= |data| {
        return Err;
      }
      var first := data[pos];
      pos := pos + 1;
      var length: nat := 0;
      if first < 128 {
        length := first;
      } else {
        var n := first - 128;
        if n == 0 {
          return Err;
        }
        if n > 4 {
          return Err;
        }
        if pos + n > |data| {
          return Err;
        }
        length := ReadLength(n);
        pos := pos + n;
      }
      assert ReadElement(data[start..]) == TakeAt(data, start, pos, length);
      if pos + length > |data| {
        return Err;
      }
      var content := data[pos..pos + length];
      pos := pos + length;
      return Ok((tag, content));
    }

    method ReadLength(n: nat) returns (length: nat)
      requires pos + n <= |data|
      ensures length == BigEndian(data[pos..pos + n])
    {
      length := 0;
      for i := 0 to n
        invariant length == BigEndian(data[pos..pos + i])
      {
        assert data[pos..pos + i + 1] == data[pos..pos + i] + [data[pos + i]];
        BigEndianSnoc(data[pos..pos + i], data[pos + i]);
        length := length * 256 + data[pos + i];
      }
    }
  }

  method DecodeDisplayText(tag: byte, content: bytes) returns (r: Result<bytes>)
    ensures r == DisplayText.Decode(tag, content)
  {
    if tag == TAG_UTF8 || tag == TAG_VISIBLE || tag == TAG_IA5 {
      return Ok(content);
    }
    if tag != TAG_BMP || |content| % 2 != 0 {
      return Err;
    }
    var units: seq<nat> := [];
    var i := 0;
    while i + 1 < |content|
      invariant i % 2 == 0 && i <= |content| && units == DisplayText.Units(content[..i])
    {
      var high: nat, low: nat := content[i], content[i + 1];
      assert content[..i + 2][..i] == content[..i];
      units := units + [256 * high + low];
      i := i + 2;
    }
    assert content[..i] == content;
    return Ok(DisplayText.Text(DisplayText.DecodeUtf16(units)));
  }

  method ReadNumbers(body: bytes) returns (r: Result<seq<int64>>)
    ensures r == ParseNumbers(body)
  {
    var c := new DerCursor(body);
    var numbers: seq<int64> := [];
    PrependNone(ParseNumbers(body));
    while !c.Empty()
      invariant c.Valid() && fresh(c)
      invariant ParseNumbers(body) == Prepend(numbers, ParseNumbers(c.Rest()))
      decreases |c.data| - c.pos
    {
      var e := c.Read();
      if e.Err? {
        return Err;
      }
      if e.value.0 != TAG_INTEGER {
        return Err;
      }
      var n := OidCodec.DecodeInteger(e.value.1);
      if n.Err? {
        return Err;
      }
      PrependOne(numbers, n.value, ParseNumbers(c.Rest()));
      numbers := numbers + [n.value];
    }
    assert numbers + [] == numbers;
    return Ok(numbers);
  }

  method ReadReference(body: bytes) returns (r: Result<(bytes, seq<int64>)>)
    ensures r == ParseReference(body)
  {
    var c := new DerCursor(body);
    var org := c.Read();
    if org.Err? {
      return Err;
    }
    var text := DecodeDisplayText(org.value.0, org.value.1);
    if text.Err? {
      return Err;
    }
    var nums := c.Read();
    if nums.Err? || nums.value.0 != TAG_SEQUENCE {
      return Err;
    }
    var numbers := ReadNumbers(nums.value.1);
    if numbers.Err? {
      return Err;
    }
    return Ok((text.value, numbers.value));
  }

  method ReadUserNotice(body: bytes) returns (r: Result<UserNotice>)
    ensures r == ParseNotice(body, EMPTY_NOTICE)
  {
    var n := UserNotice([], [], []);
    var c := new DerCursor(body);
    while !c.Empty()
      invariant c.Valid() && fresh(c)
      invariant ParseNotice(body, EMPTY_NOTICE) == ParseNotice(c.Rest(), n)
      decreases |c.data| - c.pos
    {
      var e := c.Read();
      if e.Err? {
        return Err;
      }
      var tag := e.value.0;
      if tag == TAG_SEQUENCE {
        var ref := ReadReference(e.value.1);
        if ref.Err? {
          return Err;
        }
        n := n.(organization := ref.value.0, noticeNumbers := ref.value.1);
      } else if tag == TAG_UTF8 || tag == TAG_VISIBLE || tag == TAG_IA5 || tag == TAG_BMP {
        var text := DecodeDisplayText(tag, e.value.1);
        if text.Err? {
          return Err;
        }
        n := n.(explicitText := text.value);
      } else {
        return Err;
      }
    }
    return Ok(n);
  }

  /** The policy under construction, which qualifier parsing fills in place. */
  class PolicyRecord {
    var oid: bytes
    var cpsUris: seq<bytes>
    var userNotice: Option<UserNotice>

    function Value(): CertificatePolicy
      reads this
    {
      CertificatePolicy(oid, cpsUris, userNotice)
    }

    constructor (oid: bytes)
      ensures Value() == CertificatePolicy(oid, [], None)
    {
      this.oid := oid;
      cpsUris := [];
      userNotice := None;
    }
  }

  method ReadQualifier(c: DerCursor, p: PolicyRecord) returns (ok: bool)
    requires c.Valid()
    modifies c, p
    ensures c.Valid() && c.pos >= old(c.pos)
    ensures match ReadElement(old(c.Rest()))
            case Err => !ok
            case Ok(e) =>
              (ok <==> ParseQualifier(e, old(p.Value())).Ok?)
              && (ok ==> p.Value() == ParseQualifier(e, old(p.Value())).value
                         && c.Rest() == e.rest && c.pos > old(c.pos))
  {
    var e := c.Read();
    if e.Err? || e.value.0 != TAG_SEQUENCE {
      return false;
    }
    var inner := new DerCursor(e.value.1);
    var id := inner.Read();
    if id.Err? || id.value.0 != TAG_OID {
      return false;
    }
    if id.value.1 == CPS_ID {
      var cps := inner.Read();
      if cps.Err? || cps.value.0 != TAG_IA5 {
        return false;
      }
      p.cpsUris := p.cpsUris + [cps.value.1];
    } else if id.value.1 == NOTICE_ID {
      var notice := inner.Read();
      if notice.Err? || notice.value.0 != TAG_SEQUENCE {
        return false;
      }
      var n := ReadUserNotice(notice.value.1);
      if n.Err? {
        return false;
      }
      p.userNotice := Some(n.value);
    } else {
      return true;
    }
    if !inner.Empty() {
      return false;
    }
    return true;
  }

  method ReadQualifiers(body: bytes, p: PolicyRecord) returns (ok: bool)
    modifies p
    ensures ok <==> ParseQualifiers(body, old(p.Value())).Ok?
    ensures ok ==> p.Value() == ParseQualifiers(body, old(p.Value())).value
  {
    ghost var p0 := p.Value();
    var c := new DerCursor(body);
    while !c.Empty()
      invariant c.Valid() && fresh(c)
      invariant ParseQualifiers(body, p0) == ParseQualifiers(c.Rest(), p.Value())
      decreases |c.data| - c.pos
    {
      var good := ReadQualifier(c, p);
      if !good {
        return false;
      }
    }
    return true;
  }

  method ReadPolicy(c: DerCursor) returns (r: Result<CertificatePolicy>)
    requires c.Valid()
    modifies c
    ensures c.Valid() && c.pos >= old(c.pos)
    ensures match ReadElement(old(c.Rest()))
            case Err => r.Err?
            case Ok(e) => r == ParsePolicy(e) && (r.Ok? ==> c.Rest() == e.rest && c.pos > old(c.pos))
  {
    var e := c.Read();
    if e.Err? || e.value.0 != TAG_SEQUENCE {
      return Err;
    }
    var inner := new DerCursor(e.value.1);
    var id := inner.Read();
    if id.Err? || id.value.0 != TAG_OID {
      return Err;
    }
    var oid := OidCodec.DecodeOid(id.value.1);
    var p := new PolicyRecord(oid);
    if inner.Empty() {
      return Ok(p.Value());
    }
    var quals := inner.Read();
    if quals.Err? || quals.value.0 != TAG_SEQUENCE {
      return Err;
    }
    if !inner.Empty() {
      return Err;
    }
    var ok := ReadQualifiers(quals.value.1, p);
    if !ok {
      return Err;
    }
    return Ok(p.Value());
  }

  method ReadPolicies(der: bytes) returns (r: Result<seq<CertificatePolicy>>)
    ensures r == Parse(der)
  {
    var cur := new DerCursor(der);
    var e := cur.Read();
    if e.Err? || e.value.0 != TAG_SEQUENCE {
      return Err;
    }
    if !cur.Empty() {
      return Err;
    }
    var body := e.value.1;
    var policies: seq<CertificatePolicy> := [];
    var c := new DerCursor(body);
    PrependNone(ParseList(body));
    while !c.Empty()
      invariant c.Valid() && fresh(c)
      invariant ParseList(body) == Prepend(policies, ParseList(c.Rest()))
      decreases |c.data| - c.pos
    {
      var p := ReadPolicy(c);
      if p.Err? {
        return Err;
      }
      PrependOne(policies, p.value, ParseList(c.Rest()));
      policies := policies + [p.value];
    }
    assert policies + [] == policies;
    if |policies| == 0 {
      return Err;
    }
    return Ok(policies);
  }
}
