/**
 Object identifiers: dotted decimal text, 64-bit arcs and base-128 content octets
 (X.690 section 8.19). Text is the octets of a Go string.
 */
module Oids {
  import opened Results
  import opened Octets

  const DOT: byte := 46
  const ZERO_DIGIT: byte := 48

  // ----- base-128 groups -----

  function Groups(v: nat, mark: byte): (s: bytes)
    requires mark == 0 || mark == 128
    ensures s != []
  {
    if v < 128 then [v + mark] else Groups(v / 128, 128) + [v % 128 + mark]
  }

  /** Shortest groups, the high bit set on all but the last. */
  function Base128(v: nat): bytes {
    Groups(v, 0)
  }

  function GroupValue(s: bytes): nat {
    if s == [] then 0 else 128 * GroupValue(s[..|s| - 1]) + s[|s| - 1] % 128
  }

  datatype Reading = Reading(value: nat, used: nat)

  /** The state of the reading loop: `v` was accumulated from `b[..i]` in a uint64. */
  function ReadBase128From(b: bytes, i: nat, v: nat): Result<Reading>
    requires i <= |b|
    decreases |b| - i
  {
    if i == |b| then Err else
    var w := (v * 128 + b[i] % 128) % TWO_64;
    if b[i] < 128 then Ok(Reading(w, i + 1))
    else if w > (TWO_64 - 1) / 128 then Err
    else ReadBase128From(b, i + 1, w)
  }

  function ReadBase128(b: bytes): Result<Reading> {
    ReadBase128From(b, 0, 0)
  }

  /** Octet `k` ends the first group sequence of `b`. */
  predicate EndsAt(b: bytes, k: nat) {
    k < |b| && b[k] < 128 && forall j :: 0 <= j < k ==> b[j] >= 128
  }

  lemma GroupValueSnoc(s: bytes, b: byte)
    ensures GroupValue(s + [b]) == 128 * GroupValue(s) + b % 128
  {
    assert (s + [b])[..|s|] == s;
  }

  lemma GroupValueStep(b: bytes, i: nat)
    requires i < |b|
    ensures GroupValue(b[..i + 1]) == 128 * GroupValue(b[..i]) + b[i] % 128
  {
    assert b[..i + 1] == b[..i] + [b[i]];
    GroupValueSnoc(b[..i], b[i]);
  }

  lemma {:induction false} GroupValueGrows(b: bytes, i: nat, k: nat)
    requires i < k <= |b|
    ensures GroupValue(b[..i]) * 128 <= GroupValue(b[..k])
    decreases k - i
  {
    GroupValueStep(b, k - 1);
    if i < k - 1 {
      GroupValueGrows(b, i, k - 1);
    }
  }

  lemma NoWrap(v: nat, b: byte)
    requires v * 128 < TWO_64
    ensures (v * 128 + b % 128) % TWO_64 == v * 128 + b % 128
  {
    assert v <= 0x1FF_FFFF_FFFF_FFFF;
  }

  lemma {:induction false} ReadFromEnd(b: bytes, i: nat, k: nat)
    requires EndsAt(b, k) && i <= k
    requires GroupValue(b[..i]) * 128 < TWO_64
    ensures ReadBase128From(b, i, GroupValue(b[..i])) ==
            if GroupValue(b[..k + 1]) < TWO_64 then Ok(Reading(GroupValue(b[..k + 1]), k + 1)) else Err
    decreases k - i
  {
    GroupValueStep(b, i);
    var w := GroupValue(b[..i + 1]);
    NoWrap(GroupValue(b[..i]), b[i]);
    if i < k {
      if w > (TWO_64 - 1) / 128 {
        GroupValueGrows(b, i + 1, k + 1);
      } else {
        ReadFromEnd(b, i + 1, k);
      }
    }
  }

  lemma {:induction false} ReadFromNoEnd(b: bytes, i: nat, v: nat)
    requires i <= |b| && forall j :: i <= j < |b| ==> b[j] >= 128
    ensures ReadBase128From(b, i, v).Err?
    decreases |b| - i
  {
    if i < |b| {
      ReadFromNoEnd(b, i + 1, (v * 128 + b[i] % 128) % TWO_64);
    }
  }

  /** Reading succeeds exactly on a terminated group sequence below 2^64, and is exact then. */
  lemma ReadBase128Exact(b: bytes)
    ensures ReadBase128(b).Ok? <==> exists k: nat :: EndsAt(b, k) && GroupValue(b[..k + 1]) < TWO_64
    ensures forall k: nat :: EndsAt(b, k) && GroupValue(b[..k + 1]) < TWO_64
                             ==> ReadBase128(b) == Ok(Reading(GroupValue(b[..k + 1]), k + 1))
  {
    forall k: nat | EndsAt(b, k)
      ensures ReadBase128(b) ==
              if GroupValue(b[..k + 1]) < TWO_64 then Ok(Reading(GroupValue(b[..k + 1]), k + 1)) else Err
    {
      ReadFromEnd(b, 0, k);
    }
    if !exists k: nat :: EndsAt(b, k) {
      NoEnd(b, |b|);
      ReadFromNoEnd(b, 0, 0);
    }
  }

  lemma {:induction false} NoEnd(b: bytes, n: nat)
    requires n <= |b| && !exists k: nat :: EndsAt(b, k)
    ensures forall j :: 0 <= j < n ==> b[j] >= 128
  {
    if n > 0 {
      NoEnd(b, n - 1);
      assert !EndsAt(b, n - 1);
    }
  }

  lemma {:induction false} GroupsShape(v: nat, mark: byte)
    requires mark == 0 || mark == 128
    ensures var s := Groups(v, mark);
            GroupValue(s) == v
            && (s[|s| - 1] >= 128 <==> mark == 128)
            && forall j :: 0 <= j < |s| - 1 ==> s[j] >= 128
  {
    var p := if v < 128 then [] else Groups(v / 128, 128);
    var l := v % 128 + mark;
    assert Groups(v, mark) == p + [l];
    assert l % 128 == v % 128 by {
      if mark == 128 {
        assert l % 128 == (v % 128) % 128;
      }
    }
    GroupValueSnoc(p, l);
    if v >= 128 {
      GroupsShape(v / 128, 128);
    }
  }

  /** The reader undoes `Base128` for every uint64, whatever follows. */
  lemma ReadBase128OfBase128(v: nat, rest: bytes)
    requires v < TWO_64
    ensures ReadBase128(Base128(v) + rest) == Ok(Reading(v, |Base128(v)|))
  {
    var s := Base128(v);
    GroupsShape(v, 0);
    var k := |s| - 1;
    assert (s + rest)[..k + 1] == s;
    assert EndsAt(s + rest, k);
    ReadFromEnd(s + rest, 0, k);
  }

  // ----- decimal text -----

  predicate IsDigit(c: byte) {
    48 <= c <= 57
  }

  predicate AllDigits(s: bytes) {
    forall i :: 0 <= i < |s| ==> IsDigit(s[i])
  }

  /** strconv.FormatUint in base 10. */
  function Decimal(v: nat): (s: bytes)
    ensures s != [] && AllDigits(s)
  {
    if v < 10 then [48 + v] else Decimal(v / 10) + [48 + v % 10]
  }

  function DecimalValue(s: bytes): nat
    requires AllDigits(s)
  {
    if s == [] then 0 else 10 * DecimalValue(s[..|s| - 1]) + (s[|s| - 1] - 48)
  }

  /** strconv.ParseUint in base 10 with 64 bits: no sign, no underscores. */
  function ParseUint(s: bytes): Result<nat> {
    if s == [] || !AllDigits(s) || DecimalValue(s) >= TWO_64 then Err else Ok(DecimalValue(s))
  }

  predicate NoLeadingZero(s: bytes) {
    |s| == 1 || (|s| > 1 && s[0] != ZERO_DIGIT)
  }

  lemma DecimalValueSnoc(s: bytes, c: byte)
    requires AllDigits(s) && IsDigit(c)
    ensures AllDigits(s + [c]) && DecimalValue(s + [c]) == 10 * DecimalValue(s) + (c - 48)
  {
    assert (s + [c])[..|s|] == s;
  }

  lemma {:induction false} DecimalShape(v: nat)
    ensures DecimalValue(Decimal(v)) == v
    ensures NoLeadingZero(Decimal(v)) && (Decimal(v)[0] == ZERO_DIGIT ==> v == 0)
  {
    if v >= 10 {
      DecimalShape(v / 10);
      DecimalValueSnoc(Decimal(v / 10), 48 + v % 10);
    } else {
      DecimalValueSnoc([], 48 + v);
      assert [] + [48 + v] == [48 + v];
    }
  }

  lemma {:induction false} DecimalKept(s: bytes)
    requires AllDigits(s) && NoLeadingZero(s)
    ensures Decimal(DecimalValue(s)) == s
    ensures s[0] != ZERO_DIGIT ==> DecimalValue(s) > 0
  {
    var p, l := s[..|s| - 1], s[|s| - 1];
    assert s == p + [l];
    DecimalValueSnoc(p, l);
    if |s| > 1 {
      DecimalKept(p);
      assert DecimalValue(s) / 10 == DecimalValue(p) && DecimalValue(s) % 10 == l - 48;
    } else {
      assert p == [];
    }
  }

  /** Reading and printing a digit string keeps it exactly when it has no leading zero. */
  lemma DecimalOfValue(s: bytes)
    requires s != [] && AllDigits(s)
    ensures Decimal(DecimalValue(s)) == s <==> NoLeadingZero(s)
  {
    DecimalShape(DecimalValue(s));
    if NoLeadingZero(s) {
      DecimalKept(s);
    }
  }

  // ----- splitting at dots -----

  /** strings.Split(s, "."). */
  function Split(s: bytes): (parts: seq<bytes>)
    ensures |parts| >= 1
  {
    if s == [] then [[]]
    else
      var r := Split(s[1..]);
      if s[0] == DOT then [[]] + r else [[s[0]] + r[0]] + r[1..]
  }

  /** strings.Join(parts, "."). */
  function Join(parts: seq<bytes>): bytes
    requires |parts| >= 1
  {
    if |parts| == 1 then parts[0] else parts[0] + [DOT] + Join(parts[1..])
  }

  predicate NoDot(s: bytes) {
    forall i :: 0 <= i < |s| ==> s[i] != DOT
  }

  lemma ConsAssociates(c: byte, a: bytes, b: bytes, d: bytes)
    ensures [c] + a + b + d == [c] + (a + b + d)
  {
  }

  lemma JoinHead(c: byte, parts: seq<bytes>)
    requires |parts| >= 1
    ensures Join([[c] + parts[0]] + parts[1..]) == [c] + Join(parts)
  {
    assert ([[c] + parts[0]] + parts[1..])[1..] == parts[1..];
    if |parts| > 1 {
      ConsAssociates(c, parts[0], [DOT], Join(parts[1..]));
    }
  }

  lemma {:induction false} JoinSplit(s: bytes)
    ensures Join(Split(s)) == s
  {
    if s != [] {
      var r := Split(s[1..]);
      JoinSplit(s[1..]);
      assert s == [s[0]] + s[1..];
      if s[0] == DOT {
        assert ([[]] + r)[1..] == r;
      } else {
        JoinHead(s[0], r);
      }
    }
  }

  lemma {:induction false} SplitPrefix(p: bytes, s: bytes)
    requires NoDot(p)
    ensures Split(p + s) == [p + Split(s)[0]] + Split(s)[1..]
  {
    if p == [] {
      assert [] + s == s;
      assert [] + Split(s)[0] == Split(s)[0];
    } else {
      assert (p + s)[1..] == p[1..] + s;
      SplitPrefix(p[1..], s);
      assert [p[0]] + (p[1..] + Split(s)[0]) == p + Split(s)[0];
    }
  }

  lemma {:induction false} SplitJoin(parts: seq<bytes>)
    requires |parts| >= 1 && forall i :: 0 <= i < |parts| ==> NoDot(parts[i])
    ensures Split(Join(parts)) == parts
  {
    var p := parts[0];
    if |parts| == 1 {
      SplitPrefix(p, []);
      assert p + [] == p;
    } else {
      var t := [DOT] + Join(parts[1..]);
      assert Join(parts) == p + t;
      SplitPrefix(p, t);
      assert t[1..] == Join(parts[1..]);
      SplitJoin(parts[1..]);
      assert p + [] == p;
    }
  }

  // ----- surrounding white space -----

  /** How many octets the UTF-8 white space character in front of `s` takes, 0 if there is none. */
  function LeadingSpace(s: bytes): (n: nat)
    ensures n <= |s|
  {
    if |s| >= 1 && (9 <= s[0] <= 13 || s[0] == 32) then 1
    else if |s| >= 2 && s[0] == 0xC2 && (s[1] == 0x85 || s[1] == 0xA0) then 2
    else if |s| >= 3 && IsWideSpace(s[0], s[1], s[2]) then 3
    else 0
  }

  function TrailingSpace(s: bytes): (n: nat)
    ensures n <= |s|
  {
    var k := |s|;
    if k >= 1 && (9 <= s[k - 1] <= 13 || s[k - 1] == 32) then 1
    else if k >= 2 && s[k - 2] == 0xC2 && (s[k - 1] == 0x85 || s[k - 1] == 0xA0) then 2
    else if k >= 3 && IsWideSpace(s[k - 3], s[k - 2], s[k - 1]) then 3
    else 0
  }

  /** U+1680, U+2000 to U+200A, U+2028, U+2029, U+202F, U+205F and U+3000. */
  predicate IsWideSpace(a: byte, b: byte, c: byte) {
    (a == 0xE1 && b == 0x9A && c == 0x80)
    || (a == 0xE2 && b == 0x80 && (0x80 <= c <= 0x8A || c == 0xA8 || c == 0xA9 || c == 0xAF))
    || (a == 0xE2 && b == 0x81 && c == 0x9F)
    || (a == 0xE3 && b == 0x80 && c == 0x80)
  }

  function TrimLeft(s: bytes): bytes {
    var n := LeadingSpace(s);
    if n == 0 then s else TrimLeft(s[n..])
  }

  function TrimRight(s: bytes): bytes {
    var n := TrailingSpace(s);
    if n == 0 then s else TrimRight(s[..|s| - n])
  }

  /** strings.TrimSpace. */
  function TrimSpace(s: bytes): bytes {
    TrimRight(TrimLeft(s))
  }

  lemma TrimSpaceIdle(s: bytes)
    requires s != [] && IsDigit(s[0]) && IsDigit(s[|s| - 1])
    ensures TrimSpace(s) == s
  {
  }

  // ----- text to content octets -----

  function ParseParts(parts: seq<bytes>): (r: Result<seq<nat>>)
    ensures r.Ok? ==> |r.value| == |parts| && forall i :: 0 <= i < |parts| ==> r.value[i] < TWO_64
  {
    if parts == [] then Ok([]) else
    var v :- ParseUint(parts[0]);
    var vs :- ParseParts(parts[1..]);
    Ok([v] + vs)
  }

  /** The arcs an OID text denotes: two or more, the first two in range for the combined octets. */
  predicate ValidArcs(arcs: seq<nat>) {
    |arcs| >= 2
    && arcs[0] <= 2
    && (arcs[0] < 2 ==> arcs[1] <= 39)
    && (arcs[0] == 2 ==> arcs[1] <= (TWO_64 - 1) / 40)
    && forall i :: 0 <= i < |arcs| ==> arcs[i] < TWO_64
  }

  function ParseArcs(text: bytes): (r: Result<seq<nat>>)
    ensures r.Ok? ==> ValidArcs(r.value)
  {
    var t := TrimSpace(text);
    if t == [] || |Split(t)| < 2 then Err else
    var arcs :- ParseParts(Split(t));
    if ValidArcs(arcs) then Ok(arcs) else Err
  }

  function EncodeTail(arcs: seq<nat>): bytes {
    if arcs == [] then [] else Base128(arcs[0]) + EncodeTail(arcs[1..])
  }

  function EncodeArcs(arcs: seq<nat>): bytes
    requires |arcs| >= 2
  {
    Base128(arcs[0] * 40 + arcs[1]) + EncodeTail(arcs[2..])
  }

  function EncodeOid(text: bytes): Result<bytes> {
    var arcs :- ParseArcs(text);
    Ok(EncodeArcs(arcs))
  }

  // ----- content octets to text -----

  function DecodeTail(rest: bytes): Result<seq<nat>>
    decreases |rest|
  {
    if rest == [] then Ok([]) else
    var reading :- ReadBase128(rest);
    ReadUsed(rest);
    var arcs :- DecodeTail(rest[reading.used..]);
    Ok([reading.value] + arcs)
  }

  function SplitFirst(first: nat): seq<nat> {
    if first < 40 then [0, first] else if first < 80 then [1, first - 40] else [2, first - 80]
  }

  function DecodeArcs(content: bytes): Result<seq<nat>> {
    if content == [] then Err else
    var first :- ReadBase128(content);
    ReadUsed(content);
    var arcs :- DecodeTail(content[first.used..]);
    Ok(SplitFirst(first.value) + arcs)
  }

  function Texts(arcs: seq<nat>): (parts: seq<bytes>)
    ensures |parts| == |arcs| && forall i :: 0 <= i < |arcs| ==> parts[i] == Decimal(arcs[i])
  {
    seq(|arcs|, i requires 0 <= i < |arcs| => Decimal(arcs[i]))
  }

  function DottedText(arcs: seq<nat>): bytes
    requires |arcs| >= 1
  {
    Join(Texts(arcs))
  }

  /** Malformed content decodes to the empty text. */
  function DecodeOid(content: bytes): bytes {
    match DecodeArcs(content)
    case Ok(arcs) => if |arcs| >= 1 then DottedText(arcs) else []
    case Err => []
  }

  lemma {:induction false} ReadFromUsed(b: bytes, i: nat, v: nat)
    requires i <= |b|
    ensures var r := ReadBase128From(b, i, v); r.Ok? ==> i < r.value.used <= |b| && r.value.value < TWO_64
    decreases |b| - i
  {
    if i < |b| {
      ReadFromUsed(b, i + 1, (v * 128 + b[i] % 128) % TWO_64);
    }
  }

  lemma ReadUsed(b: bytes)
    ensures var r := ReadBase128(b); r.Ok? ==> 0 < r.value.used <= |b| && r.value.value < TWO_64
  {
    ReadFromUsed(b, 0, 0);
  }

  // ----- round trips -----

  lemma {:induction false} DecodeTailOfEncode(arcs: seq<nat>)
    requires forall i :: 0 <= i < |arcs| ==> arcs[i] < TWO_64
    ensures DecodeTail(EncodeTail(arcs)) == Ok(arcs)
  {
    if arcs != [] {
      var g, rest := Base128(arcs[0]), EncodeTail(arcs[1..]);
      ReadBase128OfBase128(arcs[0], rest);
      assert (g + rest)[|g|..] == rest;
      DecodeTailOfEncode(arcs[1..]);
      assert [arcs[0]] + arcs[1..] == arcs;
    }
  }

  lemma DecodeArcsOfEncode(arcs: seq<nat>)
    requires ValidArcs(arcs)
    ensures DecodeArcs(EncodeArcs(arcs)) == Ok(arcs)
  {
    var first := arcs[0] * 40 + arcs[1];
    var g, rest := Base128(first), EncodeTail(arcs[2..]);
    ReadBase128OfBase128(first, rest);
    assert (g + rest)[|g|..] == rest;
    DecodeTailOfEncode(arcs[2..]);
    assert SplitFirst(first) == arcs[..2];
    assert arcs[..2] + arcs[2..] == arcs;
  }

  lemma {:induction false} ParsePartsOfTexts(arcs: seq<nat>)
    requires forall i :: 0 <= i < |arcs| ==> arcs[i] < TWO_64
    ensures ParseParts(Texts(arcs)) == Ok(arcs)
  {
    if arcs != [] {
      DecimalShape(arcs[0]);
      assert Texts(arcs)[1..] == Texts(arcs[1..]);
      ParsePartsOfTexts(arcs[1..]);
      assert [arcs[0]] + arcs[1..] == arcs;
    }
  }

  lemma {:induction false} JoinEnds(parts: seq<bytes>)
    requires |parts| >= 1 && forall i :: 0 <= i < |parts| ==> parts[i] != [] && AllDigits(parts[i])
    ensures var s := Join(parts); s != [] && IsDigit(s[0]) && IsDigit(s[|s| - 1])
  {
    if |parts| > 1 {
      JoinEnds(parts[1..]);
    }
  }

  lemma SplitDottedText(arcs: seq<nat>)
    requires |arcs| >= 1
    ensures TrimSpace(DottedText(arcs)) == DottedText(arcs) != []
    ensures Split(DottedText(arcs)) == Texts(arcs)
  {
    var parts := Texts(arcs);
    forall i | 0 <= i < |parts| ensures NoDot(parts[i]) {
      assert AllDigits(parts[i]);
    }
    JoinEnds(parts);
    TrimSpaceIdle(DottedText(arcs));
    SplitJoin(parts);
  }

  /** The printed form of valid arcs is parsed back to them. */
  lemma ParseArcsOfText(arcs: seq<nat>)
    requires ValidArcs(arcs)
    ensures ParseArcs(DottedText(arcs)) == Ok(arcs)
  {
    SplitDottedText(arcs);
    ParsePartsOfTexts(arcs);
  }

  /** The text with surrounding space and leading zeros of arcs removed. */
  function CanonicalOid(text: bytes): bytes {
    match ParseArcs(text)
    case Ok(arcs) => DottedText(arcs)
    case Err => text
  }

  /** Decoding the octets of an accepted text gives its canonical dotted form. */
  lemma OidRoundTrip(text: bytes)
    requires EncodeOid(text).Ok?
    ensures DecodeOid(EncodeOid(text).value) == CanonicalOid(text)
    ensures EncodeOid(CanonicalOid(text)) == EncodeOid(text)
    ensures CanonicalOid(CanonicalOid(text)) == CanonicalOid(text)
  {
    var arcs := ParseArcs(text).value;
    DecodeArcsOfEncode(arcs);
    ParseArcsOfText(arcs);
  }

  /** Two accepted texts share their octets exactly when they share their canonical form. */
  lemma OidInjective(s: bytes, t: bytes)
    requires EncodeOid(s).Ok? && EncodeOid(t).Ok?
    ensures EncodeOid(s) == EncodeOid(t) <==> CanonicalOid(s) == CanonicalOid(t)
  {
    OidRoundTrip(s);
    OidRoundTrip(t);
  }

  lemma {:induction false} PartsValues(parts: seq<bytes>)
    requires ParseParts(parts).Ok?
    ensures forall i :: 0 <= i < |parts| ==> ParseUint(parts[i]) == Ok(ParseParts(parts).value[i])
  {
    if parts != [] {
      PartsValues(parts[1..]);
      assert forall i :: 1 <= i < |parts| ==> parts[i] == parts[1..][i - 1];
    }
  }

  lemma TextsOfParts(parts: seq<bytes>)
    requires ParseParts(parts).Ok?
    ensures Texts(ParseParts(parts).value) == parts
            <==> forall i :: 0 <= i < |parts| ==> NoLeadingZero(parts[i])
  {
    var texts := Texts(ParseParts(parts).value);
    PartsValues(parts);
    forall i | 0 <= i < |parts| ensures texts[i] == parts[i] <==> NoLeadingZero(parts[i]) {
      assert ParseUint(parts[i]).Ok?;
      DecimalOfValue(parts[i]);
    }
  }

  /** An accepted text is canonical exactly when it has no surrounding space and no leading zeros. */
  lemma CanonicalText(text: bytes)
    requires EncodeOid(text).Ok?
    ensures CanonicalOid(text) == text
            <==> TrimSpace(text) == text && forall i :: 0 <= i < |Split(text)| ==> NoLeadingZero(Split(text)[i])
  {
    var t := TrimSpace(text);
    var arcs := ParseArcs(text).value;
    TextsOfParts(Split(t));
    SplitDottedText(arcs);
    JoinSplit(t);
  }

  /** A decoded text, when the encoder takes it, is already canonical. */
  lemma DecodedIsCanonical(content: bytes)
    requires EncodeOid(DecodeOid(content)).Ok?
    ensures CanonicalOid(DecodeOid(content)) == DecodeOid(content)
  {
    var text := DecodeOid(content);
    match DecodeArcs(content) {
      case Err =>
        assert false;
      case Ok(arcs) =>
        DecodeArcsBound(content);
        SplitDottedText(arcs);
        ParsePartsOfTexts(arcs);
    }
  }

  lemma {:induction false} DecodeTailBound(rest: bytes)
    ensures var r := DecodeTail(rest); r.Ok? ==> forall i :: 0 <= i < |r.value| ==> r.value[i] < TWO_64
    decreases |rest|
  {
    if rest != [] && ReadBase128(rest).Ok? {
      ReadUsed(rest);
      DecodeTailBound(rest[ReadBase128(rest).value.used..]);
    }
  }

  lemma DecodeArcsBound(content: bytes)
    ensures var r := DecodeArcs(content);
            r.Ok? ==> |r.value| >= 2 && forall i :: 0 <= i < |r.value| ==> r.value[i] < TWO_64
  {
    if content != [] && ReadBase128(content).Ok? {
      var first := ReadBase128(content).value;
      ReadUsed(content);
      DecodeTailBound(content[first.used..]);
      var tail := DecodeTail(content[first.used..]);
      if tail.Ok? {
        var arcs := SplitFirst(first.value) + tail.value;
        assert DecodeArcs(content) == Ok(arcs);
        assert arcs[0] < TWO_64 && arcs[1] < TWO_64;
        assert forall i :: 2 <= i < |arcs| ==> arcs[i] == tail.value[i - 2];
      }
    }
  }

  // ----- which octets come back -----

  lemma LeadingPad(s: bytes)
    requires s != [] && s[0] >= 128 && GroupValue(s) == 0
    ensures s[0] == 128
  {
    assert s[..|s|] == s;
    GroupValueStep(s, 0);
    if |s| > 1 {
      GroupValueGrows(s, 1, |s|);
    }
  }

  /** Groups printed from a value are no more than those it was read from, and the same unless those were padded. */
  lemma {:induction false} GroupsOfValue(s: bytes, mark: byte)
    requires s != [] && (mark == 0 || mark == 128) && (s[|s| - 1] >= 128 <==> mark == 128)
    requires forall j :: 0 <= j < |s| - 1 ==> s[j] >= 128
    ensures |Groups(GroupValue(s), mark)| <= |s|
    ensures Groups(GroupValue(s), mark) == s <==> |s| == 1 || s[0] != 128
  {
    var p, l := s[..|s| - 1], s[|s| - 1];
    assert s == p + [l];
    hide Groups, GroupValue;
    GroupsOfMore(p, l, mark);
  }

  lemma {:induction false} GroupsOfMore(p: bytes, l: byte, mark: byte)
    requires (mark == 0 || mark == 128) && (l >= 128 <==> mark == 128)
    requires forall j :: 0 <= j < |p| ==> p[j] >= 128
    ensures |Groups(GroupValue(p + [l]), mark)| <= |p| + 1
    ensures Groups(GroupValue(p + [l]), mark) == p + [l] <==> p == [] || p[0] != 128
  {
    LastGroup(p, l, mark);
    if p != [] && GroupValue(p) == 0 {
      LeadingPad(p);
    } else if p != [] {
      var q, k := p[..|p| - 1], p[|p| - 1];
      assert p == q + [k];
      GroupsOfMore(q, k, 128);
      SameLast(Groups(GroupValue(p), 128), p, l);
      if q == [] {
        OneGroup(p);
      }
    }
    hide Groups, GroupValue;
  }

  lemma LastGroup(p: bytes, l: byte, mark: byte)
    requires (mark == 0 || mark == 128) && (l >= 128 <==> mark == 128)
    ensures Groups(GroupValue(p + [l]), mark) == if GroupValue(p) == 0 then [l] else Groups(GroupValue(p), 128) + [l]
    ensures GroupValue([]) == 0
  {
    GroupValueSnoc(p, l);
    var v := GroupValue(p + [l]);
    assert l == l % 128 + mark;
    if GroupValue(p) != 0 {
      assert v / 128 == GroupValue(p) && v % 128 == l % 128;
    }
  }

  lemma OneGroup(p: bytes)
    requires |p| == 1
    ensures GroupValue(p) == p[0] % 128
  {
    assert p == [] + [p[0]];
    GroupValueSnoc([], p[0]);
  }

  lemma SameLast(a: bytes, b: bytes, l: byte)
    ensures a + [l] == b + [l] <==> a == b
  {
    if a + [l] == b + [l] {
      assert a == (a + [l])[..|a|] && b == (b + [l])[..|b|];
    }
  }

  /** What was read is printed in no more octets, and in the same ones exactly when they have no padding in front. */
  lemma Base128OfReading(b: bytes)
    requires ReadBase128(b).Ok?
    ensures var r := ReadBase128(b).value;
            0 < r.used <= |b| && |Base128(r.value)| <= r.used
            && (Base128(r.value) == b[..r.used] <==> b[0] != 128)
            && b[r.used - 1] < 128 && forall j :: 0 <= j < r.used - 1 ==> b[j] >= 128
  {
    ReadBase128Exact(b);
    var k: nat :| EndsAt(b, k) && GroupValue(b[..k + 1]) < TWO_64;
    GroupsOfValue(b[..k + 1], 0);
  }

  /** No subidentifier starts with an octet that adds nothing (X.690 section 8.19.2). */
  predicate Unpadded(c: bytes) {
    forall i :: 0 <= i < |c| && c[i] == 128 ==> i > 0 && c[i - 1] >= 128
  }

  lemma UnpaddedStep(c: bytes, used: nat)
    requires 0 < used <= |c| && c[used - 1] < 128 && forall j :: 0 <= j < used - 1 ==> c[j] >= 128
    ensures Unpadded(c) <==> c[0] != 128 && Unpadded(c[used..])
  {
    var rest := c[used..];
    assert forall i :: 0 <= i < |rest| ==> rest[i] == c[used + i];
    assert forall i :: used <= i < |c| ==> c[i] == rest[i - used];
  }

  lemma SamePieces(a: bytes, x: bytes, c: bytes, used: nat)
    requires used <= |c| && |a| <= used && |x| <= |c| - used
    ensures a + x == c <==> a == c[..used] && x == c[used..]
  {
    if a + x == c {
      assert a == (a + x)[..|a|] && x == (a + x)[|a|..];
    }
  }

  lemma {:induction false} TailOctets(rest: bytes)
    requires DecodeTail(rest).Ok?
    ensures |EncodeTail(DecodeTail(rest).value)| <= |rest|
    ensures EncodeTail(DecodeTail(rest).value) == rest <==> Unpadded(rest)
    decreases |rest|
  {
    if rest != [] {
      var r := ReadBase128(rest).value;
      Base128OfReading(rest);
      var more := DecodeTail(rest[r.used..]).value;
      TailOctets(rest[r.used..]);
      assert DecodeTail(rest).value[0] == r.value && DecodeTail(rest).value[1..] == more;
      hide Unpadded, Base128, ReadBase128, DecodeTail;
      UnpaddedStep(rest, r.used);
      SamePieces(Base128(r.value), EncodeTail(more), rest, r.used);
    }
  }

  lemma ArcsOctets(content: bytes)
    requires DecodeArcs(content).Ok?
    ensures |DecodeArcs(content).value| >= 2
    ensures EncodeArcs(DecodeArcs(content).value) == content <==> Unpadded(content)
  {
    var r := ReadBase128(content).value;
    Base128OfReading(content);
    var tail := DecodeTail(content[r.used..]).value;
    TailOctets(content[r.used..]);
    var arcs := SplitFirst(r.value) + tail;
    assert DecodeArcs(content) == Ok(arcs);
    assert arcs[0] * 40 + arcs[1] == r.value && arcs[2..] == tail;
    hide Unpadded, Base128, ReadBase128, DecodeTail, DecodeArcs;
    UnpaddedStep(content, r.used);
    SamePieces(Base128(r.value), EncodeTail(tail), content, r.used);
  }

  /**
   Octets are decoded to a text that encodes to the same octets exactly when they are well formed,
   their arcs are in the encoder's range and no subidentifier is padded.
   */
  lemma OctetsRoundTrip(content: bytes)
    ensures EncodeOid(DecodeOid(content)) == Ok(content)
            <==> DecodeArcs(content).Ok? && ValidArcs(DecodeArcs(content).value) && Unpadded(content)
  {
    if DecodeArcs(content).Ok? {
      var arcs := DecodeArcs(content).value;
      DecodeArcsBound(content);
      SplitDottedText(arcs);
      ParsePartsOfTexts(arcs);
      ArcsOctets(content);
      hide EncodeArcs, DecodeArcs, Unpadded, TrimSpace, Split, DottedText;
    }
  }
}
