/**
 The certificatePolicies extension (RFC 5280 section 4.2.1.4): printer and parser on values,
 and how each undoes the other. Nil and empty Go slices are both the empty sequence.
 */
module CertPolicies {
  import opened Results
  import opened Octets
  import opened Der
  import opened Oids
  import DisplayText

  const CPS_ID: bytes := [0x2B, 0x06, 0x01, 0x05, 0x05, 0x07, 0x02, 0x01]
  const NOTICE_ID: bytes := [0x2B, 0x06, 0x01, 0x05, 0x05, 0x07, 0x02, 0x02]

  datatype UserNotice = UserNotice(organization: bytes, noticeNumbers: seq<int64>, explicitText: bytes)

  datatype CertificatePolicy = CertificatePolicy(oid: bytes, cpsUris: seq<bytes>, userNotice: Option<UserNotice>)

  // ----- printer -----

  function EncodeNumbers(numbers: seq<int64>): bytes {
    if numbers == [] then []
    else Tlv(TAG_INTEGER, IntegerOctets(numbers[0])) + EncodeNumbers(numbers[1..])
  }

  function EncodeReference(organization: bytes, numbers: seq<int64>): bytes {
    Tlv(TAG_SEQUENCE, Tlv(TAG_UTF8, organization) + Tlv(TAG_SEQUENCE, EncodeNumbers(numbers)))
  }

  function EncodeUserNotice(n: UserNotice): Result<bytes> {
    if n.organization == [] && (n.noticeNumbers != [] || n.explicitText == []) then Err
    else Ok((if n.organization != [] then EncodeReference(n.organization, n.noticeNumbers) else [])
            + (if n.explicitText != [] then Tlv(TAG_UTF8, n.explicitText) else []))
  }

  function Qualifier(id: bytes, value: bytes): bytes {
    Tlv(TAG_SEQUENCE, Tlv(TAG_OID, id) + value)
  }

  predicate IsIa5(uri: bytes) {
    forall i :: 0 <= i < |uri| ==> uri[i] < 128
  }

  predicate ValidUris(uris: seq<bytes>) {
    forall i :: 0 <= i < |uris| ==> uris[i] != [] && IsIa5(uris[i])
  }

  function EncodeUris(uris: seq<bytes>): bytes {
    if uris == [] then [] else Qualifier(CPS_ID, Tlv(TAG_IA5, uris[0])) + EncodeUris(uris[1..])
  }

  function EncodeNoticeQualifier(notice: Option<UserNotice>): Result<bytes> {
    match notice
    case None => Ok([])
    case Some(n) =>
      var body :- EncodeUserNotice(n);
      Ok(Qualifier(NOTICE_ID, Tlv(TAG_SEQUENCE, body)))
  }

  /** The optional policyQualifiers field, absent when there is no qualifier. */
  function EncodeQualifiers(p: CertificatePolicy): Result<bytes> {
    if !ValidUris(p.cpsUris) then Err else
    var notice :- EncodeNoticeQualifier(p.userNotice);
    var quals := EncodeUris(p.cpsUris) + notice;
    Ok(if quals == [] then [] else Tlv(TAG_SEQUENCE, quals))
  }

  function EncodePolicy(p: CertificatePolicy): Result<bytes> {
    var oid :- EncodeOid(p.oid);
    var quals :- EncodeQualifiers(p);
    Ok(Tlv(TAG_SEQUENCE, Tlv(TAG_OID, oid) + quals))
  }

  function EncodeList(ps: seq<CertificatePolicy>, seen: set<bytes>): Result<bytes> {
    if ps == [] then Ok([])
    else if ps[0].oid in seen then Err else
    var first :- EncodePolicy(ps[0]);
    var rest :- EncodeList(ps[1..], seen + {ps[0].oid});
    Ok(first + rest)
  }

  function Encode(ps: seq<CertificatePolicy>): Result<bytes> {
    if ps == [] then Err else
    var body :- EncodeList(ps, {});
    Ok(Tlv(TAG_SEQUENCE, body))
  }

  // ----- parser -----

  function DecodeInteger(b: bytes): Result<int64> {
    if b == [] || |b| > 8 then Err else
    DecodeIntegerRange(b);
    Ok(SignedValue(b))
  }

  lemma DecodeIntegerRange(b: bytes)
    requires 1 <= |b| <= 8
    ensures -TWO_63 <= SignedValue(b) < TWO_63
  {
    IntegerOctetsLeast(b);
    Int64Octets(SignedValue(b));
  }

  function ParseNumbers(s: bytes): Result<seq<int64>>
    decreases |s|
  {
    if s == [] then Ok([]) else
    var e :- ReadElement(s);
    if e.tag != TAG_INTEGER then Err else
    var n :- DecodeInteger(e.content);
    var rest :- ParseNumbers(e.rest);
    Ok([n] + rest)
  }

  /** Octets after the notice numbers are not looked at. */
  function ParseReference(body: bytes): Result<(bytes, seq<int64>)> {
    var org :- ReadElement(body);
    var text :- DisplayText.Decode(org.tag, org.content);
    var nums :- ReadElement(org.rest);
    if nums.tag != TAG_SEQUENCE then Err else
    var numbers :- ParseNumbers(nums.content);
    Ok((text, numbers))
  }

  /** Later items overwrite earlier ones. */
  function ParseNoticeItem(e: Element, n: UserNotice): Result<UserNotice> {
    if e.tag == TAG_SEQUENCE then
      var r :- ParseReference(e.content);
      Ok(n.(organization := r.0, noticeNumbers := r.1))
    else
      var text :- DisplayText.Decode(e.tag, e.content);
      Ok(n.(explicitText := text))
  }

  function ParseNotice(s: bytes, n: UserNotice): Result<UserNotice>
    decreases |s|
  {
    if s == [] then Ok(n) else
    var e :- ReadElement(s);
    var m :- ParseNoticeItem(e, n);
    ParseNotice(e.rest, m)
  }

  const EMPTY_NOTICE := UserNotice([], [], [])

  /** Unknown qualifiers are dropped, whatever follows their identifier. */
  function ParseQualifier(e: Element, p: CertificatePolicy): Result<CertificatePolicy> {
    if e.tag != TAG_SEQUENCE then Err else
    var id :- ReadElement(e.content);
    if id.tag != TAG_OID then Err
    else if id.content == CPS_ID then
      var q :- ReadElement(id.rest);
      if q.tag != TAG_IA5 || q.rest != [] then Err
      else Ok(p.(cpsUris := p.cpsUris + [q.content]))
    else if id.content == NOTICE_ID then
      var q :- ReadElement(id.rest);
      if q.tag != TAG_SEQUENCE then Err else
      var n :- ParseNotice(q.content, EMPTY_NOTICE);
      if q.rest != [] then Err else Ok(p.(userNotice := Some(n)))
    else Ok(p)
  }

  function ParseQualifiers(s: bytes, p: CertificatePolicy): Result<CertificatePolicy>
    decreases |s|
  {
    if s == [] then Ok(p) else
    var e :- ReadElement(s);
    var q :- ParseQualifier(e, p);
    ParseQualifiers(e.rest, q)
  }

  function ParsePolicy(e: Element): Result<CertificatePolicy> {
    if e.tag != TAG_SEQUENCE then Err else
    var id :- ReadElement(e.content);
    if id.tag != TAG_OID then Err else
    var p := CertificatePolicy(DecodeOid(id.content), [], None);
    if id.rest == [] then Ok(p) else
    var quals :- ReadElement(id.rest);
    if quals.tag != TAG_SEQUENCE || quals.rest != [] then Err
    else ParseQualifiers(quals.content, p)
  }

  function ParseList(s: bytes): Result<seq<CertificatePolicy>>
    decreases |s|
  {
    if s == [] then Ok([]) else
    var e :- ReadElement(s);
    var p :- ParsePolicy(e);
    var rest :- ParseList(e.rest);
    Ok([p] + rest)
  }

  function Parse(der: bytes): Result<seq<CertificatePolicy>> {
    var e :- ReadElement(der);
    if e.tag != TAG_SEQUENCE || e.rest != [] then Err else
    var ps :- ParseList(e.content);
    if ps == [] then Err else Ok(ps)
  }

  // ----- what the printer accepts -----

  predicate DistinctOids(ps: seq<CertificatePolicy>) {
    forall i, j :: 0 <= i < j < |ps| ==> ps[i].oid != ps[j].oid
  }

  /** RFC 5280: a notice is not empty, and notice numbers come with an organization. */
  predicate ValidNotice(n: UserNotice) {
    (n.organization != [] || n.explicitText != []) && (n.noticeNumbers != [] ==> n.organization != [])
  }

  predicate ValidPolicy(p: CertificatePolicy) {
    EncodeOid(p.oid).Ok? && ValidUris(p.cpsUris) && (p.userNotice.Some? ==> ValidNotice(p.userNotice.value))
  }

  lemma DistinctStep(ps: seq<CertificatePolicy>)
    requires ps != []
    ensures DistinctOids(ps)
            <==> DistinctOids(ps[1..]) && forall i :: 0 <= i < |ps| - 1 ==> ps[1..][i].oid != ps[0].oid
  {
    var t := ps[1..];
    assert forall i :: 1 <= i < |ps| ==> ps[i] == t[i - 1];
    assert forall i :: 0 <= i < |t| ==> t[i] == ps[i + 1];
  }

  lemma PolicyAccepted(p: CertificatePolicy)
    ensures EncodePolicy(p).Ok? <==> ValidPolicy(p)
  {
  }

  lemma {:induction false} EncodeListAccepts(ps: seq<CertificatePolicy>, seen: set<bytes>)
    ensures EncodeList(ps, seen).Ok?
            <==> DistinctOids(ps) && forall i :: 0 <= i < |ps| ==> ps[i].oid !in seen && ValidPolicy(ps[i])
  {
    if ps != [] {
      var t := ps[1..];
      EncodeListAccepts(t, seen + {ps[0].oid});
      PolicyAccepted(ps[0]);
      DistinctStep(ps);
      assert forall i :: 1 <= i < |ps| ==> ps[i] == t[i - 1];
      assert forall i :: 0 <= i < |t| ==> t[i] == ps[i + 1];
    }
  }

  /** The printer takes a list exactly when it is nonempty, its policies are valid and no OID text repeats. */
  lemma EncodeAccepts(ps: seq<CertificatePolicy>)
    ensures Encode(ps).Ok?
            <==> ps != [] && DistinctOids(ps) && forall i :: 0 <= i < |ps| ==> ValidPolicy(ps[i])
  {
    EncodeListAccepts(ps, {});
  }

  /**
   The duplicate check compares texts, so the printed OIDs are distinct exactly when the
   canonical texts are.
   */
  lemma EncodedOidsDistinct(ps: seq<CertificatePolicy>)
    requires Encode(ps).Ok?
    ensures forall i :: 0 <= i < |ps| ==> EncodeOid(ps[i].oid).Ok?
    ensures (forall i, j :: 0 <= i < j < |ps| ==> EncodeOid(ps[i].oid) != EncodeOid(ps[j].oid))
            <==> DistinctOids(CanonicalList(ps))
  {
    EncodeAccepts(ps);
    forall i, j | 0 <= i < |ps| && 0 <= j < |ps|
      ensures EncodeOid(ps[i].oid) == EncodeOid(ps[j].oid)
              <==> CanonicalList(ps)[i].oid == CanonicalList(ps)[j].oid
    {
      OidInjective(ps[i].oid, ps[j].oid);
    }
  }

  /** "0.0" and "0.00" pass the duplicate check and print the same OID. */
  lemma DuplicateOidSlipsThrough()
    ensures var a := CertificatePolicy([48, DOT, 48], [], None);
            var b := CertificatePolicy([48, DOT, 48, 48], [], None);
            Encode([a, b]).Ok? && EncodeOid(a.oid) == EncodeOid(b.oid)
  {
    var s: bytes, t: bytes := [48, DOT, 48], [48, DOT, 48, 48];
    assert AllDigits([48]) && AllDigits([48, 48]);
    ZeroPair(s, [48]);
    ZeroPair(t, [48, 48]);
    EncodeAccepts([CertificatePolicy(s, [], None), CertificatePolicy(t, [], None)]);
  }

  lemma ZeroPair(s: bytes, p: bytes)
    requires p == [48] || p == [48, 48]
    requires s == [48, DOT] + p
    ensures ParseArcs(s) == Ok([0, 0])
  {
    var q: bytes := [48];
    assert s == q + ([DOT] + p);
    SplitPrefix(q, [DOT] + p);
    assert ([DOT] + p)[1..] == p;
    SplitPrefix(p, []);
    assert p + [] == p && q + [] == q;
    assert Split(s) == [q, p];
    TrimSpaceIdle(s);
    ParseZeros(q, p);
  }

  lemma ParseZeros(q: bytes, p: bytes)
    requires q == [48] && (p == [48] || p == [48, 48])
    ensures ParseParts([q, p]) == Ok([0, 0])
  {
    DecimalValueSnoc([], 48);
    DecimalValueSnoc([48], 48);
    assert [] + [48] == [48] && [48] + [48] == [48, 48];
    assert ParseUint(q) == Ok(0) && ParseUint(p) == Ok(0);
    assert [q, p][1..] == [p] && [p][1..] == [];
    var none: seq<nat> := [];
    assert ParseParts([]) == Ok(none) && [0] + none == [0];
    assert ParseParts([p]) == Ok([0]);
    assert [0] + [0] == [0, 0];
  }

  // ----- round trips -----

  function Canonical(p: CertificatePolicy): CertificatePolicy {
    p.(oid := CanonicalOid(p.oid))
  }

  function CanonicalList(ps: seq<CertificatePolicy>): (r: seq<CertificatePolicy>)
    ensures |r| == |ps| && forall i :: 0 <= i < |ps| ==> r[i] == Canonical(ps[i])
  {
    seq(|ps|, i requires 0 <= i < |ps| => Canonical(ps[i]))
  }

  lemma {:induction false} NumbersRoundTrip(numbers: seq<int64>)
    requires |EncodeNumbers(numbers)| < TWO_32
    ensures ParseNumbers(EncodeNumbers(numbers)) == Ok(numbers)
  {
    if numbers != [] {
      var o, rest := IntegerOctets(numbers[0]), EncodeNumbers(numbers[1..]);
      Int64Octets(numbers[0]);
      SignedOfInteger(numbers[0]);
      ReadTlv(TAG_INTEGER, o, rest);
      NumbersRoundTrip(numbers[1..]);
      assert [numbers[0]] + numbers[1..] == numbers;
    }
  }

  lemma ReferenceRoundTrip(organization: bytes, numbers: seq<int64>)
    requires |Tlv(TAG_UTF8, organization) + Tlv(TAG_SEQUENCE, EncodeNumbers(numbers))| < TWO_32
    ensures ParseReference(Tlv(TAG_UTF8, organization) + Tlv(TAG_SEQUENCE, EncodeNumbers(numbers)))
            == Ok((organization, numbers))
  {
    var nums := Tlv(TAG_SEQUENCE, EncodeNumbers(numbers));
    TlvLength(TAG_UTF8, organization);
    TlvLength(TAG_SEQUENCE, EncodeNumbers(numbers));
    ReadTlv(TAG_UTF8, organization, nums);
    ReadTlv(TAG_SEQUENCE, EncodeNumbers(numbers), []);
    assert nums + [] == nums;
    NumbersRoundTrip(numbers);
  }

  lemma NoticeRoundTrip(n: UserNotice)
    requires EncodeUserNotice(n).Ok? && |EncodeUserNotice(n).value| < TWO_32
    ensures ParseNotice(EncodeUserNotice(n).value, EMPTY_NOTICE) == Ok(n)
  {
    var text := if n.explicitText != [] then Tlv(TAG_UTF8, n.explicitText) else [];
    var afterRef := EMPTY_NOTICE.(organization := n.organization, noticeNumbers := n.noticeNumbers);
    assert ParseNotice(text, afterRef) == Ok(n) by {
      if n.explicitText != [] {
        TlvLength(TAG_UTF8, n.explicitText);
        ReadTlv(TAG_UTF8, n.explicitText, []);
        assert text + [] == text;
      }
    }
    if n.organization != [] {
      var ref := Tlv(TAG_UTF8, n.organization) + Tlv(TAG_SEQUENCE, EncodeNumbers(n.noticeNumbers));
      assert EncodeUserNotice(n).value == Tlv(TAG_SEQUENCE, ref) + text;
      TlvLength(TAG_SEQUENCE, ref);
      ReadTlv(TAG_SEQUENCE, ref, text);
      ReferenceRoundTrip(n.organization, n.noticeNumbers);
    } else {
      assert EncodeUserNotice(n).value == [] + text == text;
    }
  }

  lemma QualifierRead(id: bytes, value: bytes, rest: bytes)
    requires |Qualifier(id, value)| < TWO_32
    ensures ReadElement(Qualifier(id, value) + rest)
            == Ok(Element(TAG_SEQUENCE, Tlv(TAG_OID, id) + value, rest))
    ensures ReadElement(Tlv(TAG_OID, id) + value) == Ok(Element(TAG_OID, id, value))
    ensures |value| < TWO_32
  {
    TlvLength(TAG_SEQUENCE, Tlv(TAG_OID, id) + value);
    TlvLength(TAG_OID, id);
    ReadTlv(TAG_SEQUENCE, Tlv(TAG_OID, id) + value, rest);
    ReadTlv(TAG_OID, id, value);
  }

  lemma UriRoundTrip(uri: bytes, rest: bytes, p: CertificatePolicy)
    requires |Qualifier(CPS_ID, Tlv(TAG_IA5, uri))| < TWO_32
    ensures ParseQualifiers(Qualifier(CPS_ID, Tlv(TAG_IA5, uri)) + rest, p)
            == ParseQualifiers(rest, p.(cpsUris := p.cpsUris + [uri]))
  {
    var value := Tlv(TAG_IA5, uri);
    QualifierRead(CPS_ID, value, rest);
    TlvLength(TAG_IA5, uri);
    ReadTlv(TAG_IA5, uri, []);
    assert value + [] == value;
  }

  lemma HeadMoves<T>(a: seq<T>, s: seq<T>)
    requires s != []
    ensures (a + [s[0]]) + s[1..] == a + s
  {
  }

  lemma {:induction false} UrisRoundTrip(uris: seq<bytes>, rest: bytes, p: CertificatePolicy)
    requires |EncodeUris(uris)| < TWO_32
    ensures ParseQualifiers(EncodeUris(uris) + rest, p)
            == ParseQualifiers(rest, p.(cpsUris := p.cpsUris + uris))
  {
    if uris == [] {
      assert [] + rest == rest && p.cpsUris + [] == p.cpsUris;
    } else {
      var first, more := Qualifier(CPS_ID, Tlv(TAG_IA5, uris[0])), EncodeUris(uris[1..]);
      ConcatAssociates(first, more, rest);
      UriRoundTrip(uris[0], more + rest, p);
      UrisRoundTrip(uris[1..], rest, p.(cpsUris := p.cpsUris + [uris[0]]));
      HeadMoves(p.cpsUris, uris);
    }
  }

  lemma NoticeQualifierRoundTrip(notice: Option<UserNotice>, p: CertificatePolicy)
    requires p.userNotice == None
    requires EncodeNoticeQualifier(notice).Ok? && |EncodeNoticeQualifier(notice).value| < TWO_32
    ensures ParseQualifiers(EncodeNoticeQualifier(notice).value, p) == Ok(p.(userNotice := notice))
  {
    if notice.Some? {
      var body := EncodeUserNotice(notice.value).value;
      var value := Tlv(TAG_SEQUENCE, body);
      QualifierRead(NOTICE_ID, value, []);
      assert Qualifier(NOTICE_ID, value) + [] == Qualifier(NOTICE_ID, value);
      TlvLength(TAG_SEQUENCE, body);
      ReadTlv(TAG_SEQUENCE, body, []);
      assert value + [] == value;
      NoticeRoundTrip(notice.value);
    }
  }

  lemma PolicyRoundTrip(p: CertificatePolicy, rest: bytes)
    requires EncodePolicy(p).Ok? && |EncodePolicy(p).value| < TWO_32
    ensures var e := ReadElement(EncodePolicy(p).value + rest);
            e.Ok? && e.value.rest == rest && ParsePolicy(e.value) == Ok(Canonical(p))
  {
    var oid, quals := EncodeOid(p.oid).value, EncodeQualifiers(p).value;
    var body := Tlv(TAG_OID, oid) + quals;
    TlvLength(TAG_SEQUENCE, body);
    ReadTlv(TAG_SEQUENCE, body, rest);
    TlvLength(TAG_OID, oid);
    ReadTlv(TAG_OID, oid, quals);
    OidRoundTrip(p.oid);
    var q := CertificatePolicy(CanonicalOid(p.oid), [], None);
    var notice := EncodeNoticeQualifier(p.userNotice).value;
    var inner := EncodeUris(p.cpsUris) + notice;
    assert |inner| < TWO_32 by {
      TlvLength(TAG_SEQUENCE, inner);
    }
    assert ParseQualifiers(inner, q) == Ok(Canonical(p)) by {
      UrisRoundTrip(p.cpsUris, notice, q);
      assert [] + p.cpsUris == p.cpsUris;
      NoticeQualifierRoundTrip(p.userNotice, q.(cpsUris := p.cpsUris));
    }
    if inner != [] {
      ReadTlv(TAG_SEQUENCE, inner, []);
      assert quals + [] == quals;
    }
  }

  lemma ListStep(p: CertificatePolicy, rest: bytes)
    requires EncodePolicy(p).Ok? && |EncodePolicy(p).value| < TWO_32
    ensures ParseList(EncodePolicy(p).value + rest) == Prepend([Canonical(p)], ParseList(rest))
  {
    PolicyRoundTrip(p, rest);
  }

  lemma {:induction false} ListRoundTrip(ps: seq<CertificatePolicy>, seen: set<bytes>)
    requires EncodeList(ps, seen).Ok? && |EncodeList(ps, seen).value| < TWO_32
    ensures ParseList(EncodeList(ps, seen).value) == Ok(CanonicalList(ps))
  {
    if ps != [] {
      var seen' := seen + {ps[0].oid};
      ListStep(ps[0], EncodeList(ps[1..], seen').value);
      ListRoundTrip(ps[1..], seen');
      CanonicalCons(ps);
    }
  }

  lemma CanonicalCons(ps: seq<CertificatePolicy>)
    requires ps != []
    ensures CanonicalList(ps) == [Canonical(ps[0])] + CanonicalList(ps[1..])
  {
  }

  /**
   Parsing a printed list gives back every policy with its OID in canonical form, exactly
   when the printed octets stay within the reader's four length octets.
   */
  lemma RoundTrip(ps: seq<CertificatePolicy>)
    requires Encode(ps).Ok? && |Encode(ps).value| < TWO_63
    ensures Parse(Encode(ps).value) == Ok(CanonicalList(ps)) <==> |Encode(ps).value| < TWO_32 + 6
    ensures Parse(Encode(ps).value).Err? <==> |Encode(ps).value| >= TWO_32 + 6
  {
    var body := EncodeList(ps, {}).value;
    var der := Tlv(TAG_SEQUENCE, body);
    assert der + [] == der;
    TlvLength(TAG_SEQUENCE, body);
    if |body| < TWO_32 {
      ReadTlv(TAG_SEQUENCE, body, []);
      ListRoundTrip(ps, {});
    } else {
      ReadLongTlv(TAG_SEQUENCE, body, []);
    }
  }

  predicate IsCanonical(ps: seq<CertificatePolicy>) {
    forall i :: 0 <= i < |ps| ==> CanonicalOid(ps[i].oid) == ps[i].oid
  }

  lemma CanonicalFixed(ps: seq<CertificatePolicy>)
    ensures CanonicalList(ps) == ps <==> IsCanonical(ps)
  {
    if CanonicalList(ps) == ps {
      assert forall i :: 0 <= i < |ps| ==> Canonical(ps[i]) == ps[i];
    }
  }

  /** The printer is undone to the very same list exactly for canonical OID texts within bounds. */
  lemma ExactRoundTrip(ps: seq<CertificatePolicy>)
    requires Encode(ps).Ok? && |Encode(ps).value| < TWO_63
    ensures Parse(Encode(ps).value) == Ok(ps) <==> IsCanonical(ps) && |Encode(ps).value| < TWO_32 + 6
  {
    RoundTrip(ps);
    CanonicalFixed(ps);
  }

  // ----- equal octets, equal lists -----

  lemma {:induction false} NumbersInjective(a: seq<int64>, b: seq<int64>)
    requires EncodeNumbers(a) == EncodeNumbers(b) && |EncodeNumbers(a)| < TWO_63
    ensures a == b
  {
    hide Tlv;
    if a != [] && b != [] {
      Cut(TAG_INTEGER, IntegerOctets(a[0]), EncodeNumbers(a[1..]),
          TAG_INTEGER, IntegerOctets(b[0]), EncodeNumbers(b[1..]));
      SignedOfInteger(a[0]);
      SignedOfInteger(b[0]);
      NumbersInjective(a[1..], b[1..]);
      assert a == [a[0]] + a[1..] && b == [b[0]] + b[1..];
    } else if a != [] {
      TlvLength(TAG_INTEGER, IntegerOctets(a[0]));
    } else if b != [] {
      TlvLength(TAG_INTEGER, IntegerOctets(b[0]));
    }
  }

  lemma ReferenceInjective(org: bytes, a: seq<int64>, org': bytes, b: seq<int64>)
    requires EncodeReference(org, a) == EncodeReference(org', b) && |EncodeReference(org, a)| < TWO_63
    ensures org == org' && a == b
  {
    var nums, nums' := Tlv(TAG_SEQUENCE, EncodeNumbers(a)), Tlv(TAG_SEQUENCE, EncodeNumbers(b));
    var body, body' := Tlv(TAG_UTF8, org) + nums, Tlv(TAG_UTF8, org') + nums';
    TlvLength(TAG_SEQUENCE, body);
    TlvLength(TAG_SEQUENCE, EncodeNumbers(a));
    hide Tlv, EncodeNumbers;
    assert nums + [] == nums && nums' + [] == nums';
    assert Tlv(TAG_SEQUENCE, body) + [] == Tlv(TAG_SEQUENCE, body);
    assert Tlv(TAG_SEQUENCE, body') + [] == Tlv(TAG_SEQUENCE, body');
    Cut(TAG_SEQUENCE, body, [], TAG_SEQUENCE, body', []);
    Cut(TAG_UTF8, org, nums, TAG_UTF8, org', nums');
    Cut(TAG_SEQUENCE, EncodeNumbers(a), [], TAG_SEQUENCE, EncodeNumbers(b), []);
    NumbersInjective(a, b);
  }

  function EncodeText(text: bytes): bytes {
    if text != [] then Tlv(TAG_UTF8, text) else []
  }

  lemma TextInjective(text: bytes, text': bytes)
    requires EncodeText(text) == EncodeText(text') && |EncodeText(text)| < TWO_63
    ensures text == text'
  {
    TlvLength(TAG_UTF8, text);
    TlvLength(TAG_UTF8, text');
    hide Tlv;
    if text != [] && text' != [] {
      assert Tlv(TAG_UTF8, text) + [] == Tlv(TAG_UTF8, text) && Tlv(TAG_UTF8, text') + [] == Tlv(TAG_UTF8, text');
      Cut(TAG_UTF8, text, [], TAG_UTF8, text', []);
    }
  }

  /** A reference cannot be taken for a text. */
  lemma ReferenceIsNoText(org: bytes, numbers: seq<int64>, text: bytes, text': bytes)
    requires |EncodeReference(org, numbers) + EncodeText(text)| < TWO_63
    ensures EncodeReference(org, numbers) + EncodeText(text) != EncodeText(text')
  {
    var body := Tlv(TAG_UTF8, org) + Tlv(TAG_SEQUENCE, EncodeNumbers(numbers));
    TlvLength(TAG_SEQUENCE, body);
    hide Tlv;
    if EncodeReference(org, numbers) + EncodeText(text) == EncodeText(text') {
      assert EncodeText(text') + [] == EncodeText(text');
      Cut(TAG_SEQUENCE, body, EncodeText(text), TAG_UTF8, text', []);
      assert false;
    }
  }

  lemma NoticeInjective(m: UserNotice, n: UserNotice)
    requires EncodeUserNotice(m).Ok? && EncodeUserNotice(m) == EncodeUserNotice(n)
    requires |EncodeUserNotice(m).value| < TWO_63
    ensures m == n
  {
    var s, t := EncodeText(m.explicitText), EncodeText(n.explicitText);
    var a, b := EncodeReference(m.organization, m.noticeNumbers), EncodeReference(n.organization, n.noticeNumbers);
    assert EncodeUserNotice(m).value == (if m.organization != [] then a else []) + s;
    assert EncodeUserNotice(n).value == (if n.organization != [] then b else []) + t;
    hide Tlv, EncodeText, EncodeReference;
    assert [] + s == s && [] + t == t;
    if m.organization != [] && n.organization != [] {
      ReferenceCut(m.organization, m.noticeNumbers, s, n.organization, n.noticeNumbers, t);
      ReferenceInjective(m.organization, m.noticeNumbers, n.organization, n.noticeNumbers);
    } else if m.organization != [] {
      ReferenceIsNoText(m.organization, m.noticeNumbers, m.explicitText, n.explicitText);
    } else if n.organization != [] {
      ReferenceIsNoText(n.organization, n.noticeNumbers, n.explicitText, m.explicitText);
    }
    TextInjective(m.explicitText, n.explicitText);
  }

  lemma ReferenceCut(org: bytes, a: seq<int64>, s: bytes, org': bytes, b: seq<int64>, t: bytes)
    requires EncodeReference(org, a) + s == EncodeReference(org', b) + t && |EncodeReference(org, a) + s| < TWO_63
    ensures EncodeReference(org, a) == EncodeReference(org', b) && s == t
  {
    hide Tlv, EncodeNumbers;
    Cut(TAG_SEQUENCE, Tlv(TAG_UTF8, org) + Tlv(TAG_SEQUENCE, EncodeNumbers(a)), s,
        TAG_SEQUENCE, Tlv(TAG_UTF8, org') + Tlv(TAG_SEQUENCE, EncodeNumbers(b)), t);
  }

  lemma QualifierCut(id: bytes, v: bytes, r: bytes, id': bytes, v': bytes, r': bytes)
    requires Qualifier(id, v) + r == Qualifier(id', v') + r' && |Qualifier(id, v) + r| < TWO_63
    ensures id == id' && v == v' && r == r'
  {
    TlvLength(TAG_SEQUENCE, Tlv(TAG_OID, id) + v);
    hide Tlv;
    Cut(TAG_SEQUENCE, Tlv(TAG_OID, id) + v, r, TAG_SEQUENCE, Tlv(TAG_OID, id') + v', r');
    Cut(TAG_OID, id, v, TAG_OID, id', v');
  }

  lemma QualifierNotEmpty(id: bytes, v: bytes)
    ensures |Qualifier(id, v)| > 0
  {
    TlvLength(TAG_SEQUENCE, Tlv(TAG_OID, id) + v);
  }

  lemma WholeTlv(tag: byte, a: bytes, b: bytes)
    requires Tlv(tag, a) == Tlv(tag, b) && |Tlv(tag, a)| < TWO_63
    ensures a == b && |a| < TWO_63
  {
    TlvLength(tag, a);
    assert Tlv(tag, a) + [] == Tlv(tag, a) && Tlv(tag, b) + [] == Tlv(tag, b);
    Cut(tag, a, [], tag, b, []);
  }

  lemma NoticeQualifierInjective(m: Option<UserNotice>, n: Option<UserNotice>)
    requires EncodeNoticeQualifier(m).Ok? && EncodeNoticeQualifier(m) == EncodeNoticeQualifier(n)
    requires |EncodeNoticeQualifier(m).value| < TWO_63
    ensures m == n
  {
    if m.Some? && n.Some? {
      var a, b := EncodeUserNotice(m.value).value, EncodeUserNotice(n.value).value;
      var v, w := Tlv(TAG_SEQUENCE, a), Tlv(TAG_SEQUENCE, b);
      hide Tlv, EncodeUserNotice;
      assert Qualifier(NOTICE_ID, v) + [] == Qualifier(NOTICE_ID, v);
      assert Qualifier(NOTICE_ID, w) + [] == Qualifier(NOTICE_ID, w);
      QualifierCut(NOTICE_ID, v, [], NOTICE_ID, w, []);
      TlvLength(TAG_SEQUENCE, Tlv(TAG_OID, NOTICE_ID) + v);
      WholeTlv(TAG_SEQUENCE, a, b);
      NoticeInjective(m.value, n.value);
    }
  }

  /** A URI qualifier cannot be taken for the end of the URIs. */
  lemma UriIsNoNotice(uri: bytes, more: bytes, n: Option<UserNotice>)
    requires EncodeNoticeQualifier(n).Ok? && |EncodeNoticeQualifier(n).value| < TWO_63
    ensures Qualifier(CPS_ID, Tlv(TAG_IA5, uri)) + more != EncodeNoticeQualifier(n).value
  {
    var v := Tlv(TAG_IA5, uri);
    QualifierNotEmpty(CPS_ID, v);
    if n.Some? && Qualifier(CPS_ID, v) + more == EncodeNoticeQualifier(n).value {
      var w := Tlv(TAG_SEQUENCE, EncodeUserNotice(n.value).value);
      hide Tlv, EncodeUserNotice;
      assert Qualifier(NOTICE_ID, w) + [] == Qualifier(NOTICE_ID, w);
      QualifierCut(CPS_ID, v, more, NOTICE_ID, w, []);
      assert false;
    }
  }

  lemma FirstUri(a: seq<bytes>, x: bytes)
    ensures a == [] ==> EncodeUris(a) + x == x
    ensures a != [] ==> EncodeUris(a) + x == Qualifier(CPS_ID, Tlv(TAG_IA5, a[0])) + (EncodeUris(a[1..]) + x)
  {
    hide Tlv, Qualifier;
    if a == [] {
      assert [] + x == x;
    } else {
      ConcatAssociates(Qualifier(CPS_ID, Tlv(TAG_IA5, a[0])), EncodeUris(a[1..]), x);
    }
  }

  lemma {:induction false} UrisInjective(a: seq<bytes>, m: Option<UserNotice>, b: seq<bytes>, n: Option<UserNotice>)
    requires EncodeNoticeQualifier(m).Ok? && EncodeNoticeQualifier(n).Ok?
    requires EncodeUris(a) + EncodeNoticeQualifier(m).value == EncodeUris(b) + EncodeNoticeQualifier(n).value
    requires |EncodeUris(a) + EncodeNoticeQualifier(m).value| < TWO_63
    ensures a == b && m == n
  {
    hide Tlv, Qualifier, EncodeNoticeQualifier, EncodeUris;
    var x, y := EncodeNoticeQualifier(m).value, EncodeNoticeQualifier(n).value;
    FirstUri(a, x);
    FirstUri(b, y);
    if a == [] && b == [] {
      NoticeQualifierInjective(m, n);
    } else if a == [] {
      UriIsNoNotice(b[0], EncodeUris(b[1..]) + y, m);
    } else if b == [] {
      UriIsNoNotice(a[0], EncodeUris(a[1..]) + x, n);
    } else {
      OneUriInjective(a[0], EncodeUris(a[1..]) + x, b[0], EncodeUris(b[1..]) + y);
      UrisInjective(a[1..], m, b[1..], n);
      assert a == [a[0]] + a[1..] && b == [b[0]] + b[1..];
    }
  }

  lemma OneUriInjective(a: bytes, x: bytes, b: bytes, y: bytes)
    requires Qualifier(CPS_ID, Tlv(TAG_IA5, a)) + x == Qualifier(CPS_ID, Tlv(TAG_IA5, b)) + y
    requires |Qualifier(CPS_ID, Tlv(TAG_IA5, a)) + x| < TWO_63
    ensures a == b && x == y
  {
    var v, w := Tlv(TAG_IA5, a), Tlv(TAG_IA5, b);
    QualifierCut(CPS_ID, v, x, CPS_ID, w, y);
    TlvLength(TAG_SEQUENCE, Tlv(TAG_OID, CPS_ID) + v);
    hide Tlv;
    WholeTlv(TAG_IA5, a, b);
  }

  lemma QualifiersInjective(p: CertificatePolicy, q: CertificatePolicy)
    requires EncodeQualifiers(p).Ok? && EncodeQualifiers(p) == EncodeQualifiers(q)
    requires |EncodeQualifiers(p).value| < TWO_63
    ensures p.cpsUris == q.cpsUris && p.userNotice == q.userNotice
  {
    var a := EncodeUris(p.cpsUris) + EncodeNoticeQualifier(p.userNotice).value;
    var b := EncodeUris(q.cpsUris) + EncodeNoticeQualifier(q.userNotice).value;
    hide EncodeUris, EncodeNoticeQualifier;
    TlvLength(TAG_SEQUENCE, a);
    TlvLength(TAG_SEQUENCE, b);
    hide Tlv;
    if a != [] && b != [] {
      WholeTlv(TAG_SEQUENCE, a, b);
    }
    UrisInjective(p.cpsUris, p.userNotice, q.cpsUris, q.userNotice);
  }

  lemma PolicyInjective(p: CertificatePolicy, r: bytes, q: CertificatePolicy, r': bytes)
    requires EncodePolicy(p).Ok? && EncodePolicy(q).Ok?
    requires EncodePolicy(p).value + r == EncodePolicy(q).value + r' && |EncodePolicy(p).value + r| < TWO_63
    ensures Canonical(p) == Canonical(q) && r == r'
  {
    var a, b := EncodeOid(p.oid).value, EncodeOid(q.oid).value;
    var u, v := EncodeQualifiers(p).value, EncodeQualifiers(q).value;
    hide EncodeQualifiers, EncodeOid;
    TlvLength(TAG_SEQUENCE, Tlv(TAG_OID, a) + u);
    hide Tlv;
    Cut(TAG_SEQUENCE, Tlv(TAG_OID, a) + u, r, TAG_SEQUENCE, Tlv(TAG_OID, b) + v, r');
    Cut(TAG_OID, a, u, TAG_OID, b, v);
    QualifiersInjective(p, q);
    OidInjective(p.oid, q.oid);
  }

  lemma PolicyNotEmpty(p: CertificatePolicy)
    requires EncodePolicy(p).Ok?
    ensures |EncodePolicy(p).value| > 0
  {
    hide EncodeQualifiers, EncodeOid;
    TlvLength(TAG_SEQUENCE, Tlv(TAG_OID, EncodeOid(p.oid).value) + EncodeQualifiers(p).value);
  }

  lemma {:induction false} ListInjective(ps: seq<CertificatePolicy>, seen: set<bytes>,
                                         qs: seq<CertificatePolicy>, seen': set<bytes>)
    requires EncodeList(ps, seen).Ok? && EncodeList(ps, seen) == EncodeList(qs, seen')
    requires |EncodeList(ps, seen).value| < TWO_63
    ensures CanonicalList(ps) == CanonicalList(qs)
  {
    hide EncodePolicy;
    if ps != [] && qs != [] {
      var more, more' := EncodeList(ps[1..], seen + {ps[0].oid}), EncodeList(qs[1..], seen' + {qs[0].oid});
      PolicyInjective(ps[0], more.value, qs[0], more'.value);
      ListInjective(ps[1..], seen + {ps[0].oid}, qs[1..], seen' + {qs[0].oid});
      CanonicalCons(ps);
      CanonicalCons(qs);
    } else if ps != [] {
      PolicyNotEmpty(ps[0]);
    } else if qs != [] {
      PolicyNotEmpty(qs[0]);
    }
  }

  /**
   Lists printed to the same octets differ at most in how their OIDs are written, whether or not the
   parser would take octets that long.
   */
  lemma EncodeInjective(ps: seq<CertificatePolicy>, qs: seq<CertificatePolicy>)
    requires Encode(ps).Ok? && Encode(ps) == Encode(qs) && |Encode(ps).value| < TWO_63
    ensures CanonicalList(ps) == CanonicalList(qs)
    ensures IsCanonical(ps) && IsCanonical(qs) ==> ps == qs
  {
    var a, b := EncodeList(ps, {}).value, EncodeList(qs, {}).value;
    hide EncodeList;
    WholeTlv(TAG_SEQUENCE, a, b);
    ListInjective(ps, {}, qs, {});
    CanonicalFixed(ps);
    CanonicalFixed(qs);
  }

  lemma {:induction false} ParseQualifiersOid(s: bytes, p: CertificatePolicy)
    ensures var r := ParseQualifiers(s, p); r.Ok? ==> r.value.oid == p.oid
    decreases |s|
  {
    if s != [] && ReadElement(s).Ok? {
      var e := ReadElement(s).value;
      var q := ParseQualifier(e, p);
      if q.Ok? {
        ParseQualifiersOid(e.rest, q.value);
      }
    }
  }

  lemma ParsedPolicyCanonical(e: Element)
    requires ParsePolicy(e).Ok? && EncodeOid(ParsePolicy(e).value.oid).Ok?
    ensures CanonicalOid(ParsePolicy(e).value.oid) == ParsePolicy(e).value.oid
  {
    var id := ReadElement(e.content).value;
    if id.rest != [] {
      ParseQualifiersOid(ReadElement(id.rest).value.content, CertificatePolicy(DecodeOid(id.content), [], None));
    }
    DecodedIsCanonical(id.content);
  }

  lemma {:induction false} ParsedItem(s: bytes, ps: seq<CertificatePolicy>, i: nat) returns (e: Element)
    requires ParseList(s) == Ok(ps) && i < |ps|
    ensures ParsePolicy(e) == Ok(ps[i])
    decreases i
  {
    hide ParsePolicy, ReadElement;
    e := ReadElement(s).value;
    if i > 0 {
      e := ParsedItem(e.rest, ParseList(e.rest).value, i - 1);
    }
  }

  /** A parsed list that can be printed has canonical OID texts. */
  lemma ParsedCanonical(der: bytes)
    requires Parse(der).Ok? && Encode(Parse(der).value).Ok?
    ensures IsCanonical(Parse(der).value)
  {
    var ps := Parse(der).value;
    EncodeAccepts(ps);
    forall i | 0 <= i < |ps| ensures CanonicalOid(ps[i].oid) == ps[i].oid {
      var e := ParsedItem(ReadElement(der).value.content, ps, i);
      assert ValidPolicy(ps[i]);
      ParsedPolicyCanonical(e);
    }
  }

  /**
   For arbitrary octets: what was parsed and can be printed within bounds is parsed again to
   the same policies, although qualifiers are regrouped, unknown ones dropped and texts retagged.
   */
  lemma ParseEncodeParse(der: bytes)
    requires Parse(der).Ok? && Encode(Parse(der).value).Ok?
    requires |Encode(Parse(der).value).value| < TWO_32 + 6
    ensures Parse(Encode(Parse(der).value).value) == Parse(der)
  {
    ParsedCanonical(der);
    ExactRoundTrip(Parse(der).value);
  }
}
