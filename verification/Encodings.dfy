/** The text encodings of octets: raw, hexadecimal (RFC 4648 section 8) and base64 (RFC 4648 section 4). */
module Encodings {
  import opened Results
  import opened Octets

  datatype Encoding = Raw | Hex | Base64

  // ----- hexadecimal -----

  function HexDigit(n: nat): byte
    requires n < 16
  {
    if n < 10 then 48 + n else 87 + n
  }

  function HexValue(b: byte): (r: Option<nat>)
    ensures r.Some? ==> r.value < 16
  {
    if 48 <= b <= 57 then Some(b - 48)
    else if 97 <= b <= 102 then Some(b - 87)
    else if 65 <= b <= 70 then Some(b - 55)
    else None
  }

  function EncodeHex(data: bytes): (r: bytes)
    ensures |r| == 2 * |data|
  {
    if data == [] then [] else [HexDigit(data[0] / 16), HexDigit(data[0] % 16)] + EncodeHex(data[1..])
  }

  function DecodeHex(text: bytes): Result<bytes> {
    if text == [] then Ok([])
    else if |text| == 1 || HexValue(text[0]).None? || HexValue(text[1]).None? then Err
    else
      var rest := DecodeHex(text[2..]);
      if rest.Err? then Err else Ok([HexValue(text[0]).value * 16 + HexValue(text[1]).value] + rest.value)
  }

  lemma {:induction false} DecodeEncodeHex(data: bytes)
    ensures DecodeHex(EncodeHex(data)) == Ok(data)
  {
    if data != [] {
      DecodeEncodeHex(data[1..]);
      assert EncodeHex(data)[2..] == EncodeHex(data[1..]);
      assert [data[0]] + data[1..] == data;
    }
  }

  predicate AllHexDigits(text: bytes) {
    forall i :: 0 <= i < |text| ==> HexValue(text[i]).Some?
  }

  function LowerHex(b: byte): byte {
    if 65 <= b <= 70 then b + 32 else b
  }

  function Lower(text: bytes): (r: bytes)
    ensures |r| == |text| && forall i :: 0 <= i < |text| ==> r[i] == LowerHex(text[i])
  {
    seq(|text|, i requires 0 <= i < |text| => LowerHex(text[i]))
  }

  lemma TwoDigits(text: bytes)
    requires |text| >= 2
    ensures AllHexDigits(text) <==> HexValue(text[0]).Some? && HexValue(text[1]).Some? && AllHexDigits(text[2..])
    ensures Lower(text) == [LowerHex(text[0]), LowerHex(text[1])] + Lower(text[2..])
  {
    var tail := text[2..];
    assert forall i :: 0 <= i < |tail| ==> tail[i] == text[i + 2];
    assert forall i :: 2 <= i < |text| ==> text[i] == tail[i - 2];
  }

  lemma TwoDigitsBack(a: byte, b: byte)
    requires HexValue(a).Some? && HexValue(b).Some?
    ensures var octet := HexValue(a).value * 16 + HexValue(b).value;
            HexDigit(octet / 16) == LowerHex(a) && HexDigit(octet % 16) == LowerHex(b)
  {
    var x, y := HexValue(a).value, HexValue(b).value;
    assert (x * 16 + y) / 16 == x && (x * 16 + y) % 16 == y;
  }

  /** Exactly pairs of digits of either case are accepted; re-encoding gives the text in lower case. */
  lemma {:induction false} HexAccepted(text: bytes)
    ensures DecodeHex(text).Ok? <==> |text| % 2 == 0 && AllHexDigits(text)
    ensures DecodeHex(text).Ok? ==> EncodeHex(DecodeHex(text).value) == Lower(text)
  {
    if |text| >= 2 {
      HexAccepted(text[2..]);
      TwoDigits(text);
      if DecodeHex(text).Ok? {
        TwoDigitsBack(text[0], text[1]);
        var d := DecodeHex(text).value;
        assert d[1..] == DecodeHex(text[2..]).value;
      }
      hide HexValue, LowerHex, HexDigit, AllHexDigits, Lower;
    }
  }

  lemma {:induction false} EncodeHexConcat(a: bytes, b: bytes)
    ensures EncodeHex(a + b) == EncodeHex(a) + EncodeHex(b)
  {
    if a == [] {
      assert a + b == b;
    } else {
      EncodeHexConcat(a[1..], b);
      assert (a + b)[1..] == a[1..] + b;
    }
  }

  // ----- base64 -----

  const PAD: byte := 61

  function Symbol(n: nat): byte
    requires n < 64
  {
    if n < 26 then 65 + n
    else if n < 52 then 71 + n
    else if n < 62 then n - 4
    else if n == 62 then 43 else 47
  }

  function SymbolValue(b: byte): (r: Option<nat>)
    ensures r.Some? ==> r.value < 64 && Symbol(r.value) == b && b != PAD
  {
    if 65 <= b <= 90 then Some(b - 65)
    else if 97 <= b <= 122 then Some(b - 71)
    else if 48 <= b <= 57 then Some(b + 4)
    else if b == 43 then Some(62)
    else if b == 47 then Some(63)
    else None
  }

  lemma ValueOfSymbol(n: nat)
    requires n < 64
    ensures SymbolValue(Symbol(n)) == Some(n)
  {
  }

  /** Four symbols for up to three octets. */
  function EncodeGroup(g: bytes): (r: bytes)
    requires 1 <= |g| <= 3
    ensures |r| == 4
  {
    if |g| == 1 then [Symbol(g[0] / 4), Symbol(g[0] % 4 * 16), PAD, PAD]
    else if |g| == 2 then [Symbol(g[0] / 4), Symbol(g[0] % 4 * 16 + g[1] / 16), Symbol(g[1] % 16 * 4), PAD]
    else [Symbol(g[0] / 4), Symbol(g[0] % 4 * 16 + g[1] / 16), Symbol(g[1] % 16 * 4 + g[2] / 64), Symbol(g[2] % 64)]
  }

  function EncodeBase64(data: bytes): (r: bytes)
    ensures if data == [] then r == [] else |r| >= 4
  {
    if data == [] then [] else EncodeGroup(data[..First(data)]) + EncodeBase64(data[First(data)..])
  }

  /** How many octets the first group holds. */
  function First(data: bytes): nat {
    if |data| < 3 then |data| else 3
  }

  /** Padding is allowed in the last group only; unused low bits are not looked at. */
  function DecodeGroup(t: bytes, last: bool): (r: Result<bytes>)
    requires |t| == 4
    ensures r.Ok? ==> 1 <= |r.value| <= 3 && (!last ==> |r.value| == 3)
  {
    if SymbolValue(t[0]).None? || SymbolValue(t[1]).None? then Err
    else
      var first := SymbolValue(t[0]).value * 4 + SymbolValue(t[1]).value / 16;
      if last && t[2] == PAD && t[3] == PAD then Ok([first])
      else if SymbolValue(t[2]).None? then Err
      else
        var second := SymbolValue(t[1]).value % 16 * 16 + SymbolValue(t[2]).value / 4;
        if last && t[3] == PAD then Ok([first, second])
        else if SymbolValue(t[3]).None? then Err
        else Ok([first, second, SymbolValue(t[2]).value % 4 * 64 + SymbolValue(t[3]).value])
  }

  function DecodeBase64(text: bytes): Result<bytes> {
    if text == [] then Ok([])
    else if |text| < 4 then Err
    else
      var group := DecodeGroup(text[..4], |text| == 4);
      if group.Err? then Err
      else
        var rest := DecodeBase64(text[4..]);
        if rest.Err? then Err else Ok(group.value + rest.value)
  }

  lemma DecodeEncodeGroup(g: bytes, last: bool)
    requires 1 <= |g| <= 3 && (last || |g| == 3)
    ensures DecodeGroup(EncodeGroup(g), last) == Ok(g)
  {
    ValueOfSymbol(g[0] / 4);
    if |g| == 1 {
      ValueOfSymbol(g[0] % 4 * 16);
      assert g == [g[0]];
    } else {
      ValueOfSymbol(g[0] % 4 * 16 + g[1] / 16);
      if |g| == 2 {
        ValueOfSymbol(g[1] % 16 * 4);
        assert g == [g[0], g[1]];
      } else {
        assert g == [g[0], g[1], g[2]];
        ValueOfSymbol(g[1] % 16 * 4 + g[2] / 64);
        ValueOfSymbol(g[2] % 64);
      }
    }
  }

  lemma {:induction false} DecodeEncodeBase64(data: bytes)
    ensures DecodeBase64(EncodeBase64(data)) == Ok(data)
  {
    hide EncodeGroup, DecodeGroup;
    if data != [] {
      var g, rest := data[..First(data)], data[First(data)..];
      assert g + rest == data;
      var text := EncodeBase64(data);
      assert text[..4] == EncodeGroup(g) && text[4..] == EncodeBase64(rest);
      DecodeEncodeGroup(g, |text| == 4);
      DecodeEncodeBase64(rest);
    }
  }

  lemma {:induction false} EncodeBase64Concat(a: bytes, b: bytes)
    requires |a| % 3 == 0
    ensures EncodeBase64(a + b) == EncodeBase64(a) + EncodeBase64(b)
  {
    if a == [] {
      assert a + b == b;
    } else {
      hide EncodeGroup;
      var g, rest := a[..3], a[3..];
      assert (a + b)[..3] == g && (a + b)[3..] == rest + b;
      EncodeBase64Concat(rest, b);
      ConcatAssociates(EncodeGroup(g), EncodeBase64(rest), EncodeBase64(b));
    }
  }

  /** The unused low bits of a padded last group are zero. */
  predicate CanonicalGroup(t: bytes)
    requires |t| == 4
  {
    (t[2] == PAD && SymbolValue(t[1]).Some? ==> SymbolValue(t[1]).value % 16 == 0)
    && (t[2] != PAD && t[3] == PAD && SymbolValue(t[2]).Some? ==> SymbolValue(t[2]).value % 4 == 0)
  }

  lemma EncodeDecodeFull(t: bytes, last: bool)
    requires |t| == 4 && t[3] != PAD && DecodeGroup(t, last).Ok?
    ensures EncodeGroup(DecodeGroup(t, last).value) == t
  {
    var g := DecodeGroup(t, last).value;
    var w, x := SymbolValue(t[0]).value, SymbolValue(t[1]).value;
    var y, z := SymbolValue(t[2]).value, SymbolValue(t[3]).value;
    hide Symbol, SymbolValue;
    assert g[0] / 4 == w && g[0] % 4 * 16 + g[1] / 16 == x && g[1] % 16 * 4 + g[2] / 64 == y && g[2] % 64 == z;
  }

  lemma EncodeDecodePadded(t: bytes, last: bool)
    requires |t| == 4 && t[3] == PAD && DecodeGroup(t, last).Ok?
    ensures EncodeGroup(DecodeGroup(t, last).value) == t <==> CanonicalGroup(t)
  {
    var g := DecodeGroup(t, last).value;
    var w, x := SymbolValue(t[0]).value, SymbolValue(t[1]).value;
    if t[2] == PAD {
      ValueOfSymbol(x);
      ValueOfSymbol(x / 16 * 16);
      hide Symbol, SymbolValue;
      assert g == [w * 4 + x / 16] && g[0] / 4 == w && g[0] % 4 * 16 == x / 16 * 16;
    } else {
      var y := SymbolValue(t[2]).value;
      ValueOfSymbol(y);
      ValueOfSymbol(y / 4 * 4);
      hide Symbol, SymbolValue;
      assert g == [w * 4 + x / 16, x % 16 * 16 + y / 4];
      assert g[0] / 4 == w && g[0] % 4 * 16 + g[1] / 16 == x && g[1] % 16 * 4 == y / 4 * 4;
    }
  }

  lemma EncodeSplit(group: bytes, rest: bytes)
    requires 1 <= |group| <= 3 && (rest == [] || |group| == 3)
    ensures EncodeBase64(group + rest) == EncodeGroup(group) + EncodeBase64(rest)
  {
    hide EncodeGroup;
    var d := group + rest;
    assert d[..First(d)] == group && d[First(d)..] == rest;
  }

  lemma DecodeSplit(text: bytes) returns (group: bytes, rest: bytes)
    requires text != [] && DecodeBase64(text).Ok?
    ensures |text| >= 4 && DecodeGroup(text[..4], |text| == 4) == Ok(group) && DecodeBase64(text[4..]) == Ok(rest)
    ensures DecodeBase64(text) == Ok(group + rest)
    ensures 1 <= |group| <= 3 && (|text| == 4 ==> rest == []) && (|text| > 4 ==> |group| == 3 && text[3] != PAD)
  {
    group, rest := DecodeGroup(text[..4], |text| == 4).value, DecodeBase64(text[4..]).value;
  }

  lemma {:induction false} DecodedLength(text: bytes) returns (groups: nat)
    requires DecodeBase64(text).Ok?
    ensures |text| == 4 * groups
  {
    groups := 0;
    if text != [] {
      hide DecodeGroup;
      groups := DecodedLength(text[4..]);
      groups := groups + 1;
    }
  }

  /** Decoding and encoding again gives the text back exactly when its unused bits are zero. */
  lemma {:induction false} EncodeDecodeBase64(text: bytes)
    requires DecodeBase64(text).Ok?
    ensures text == [] || |text| >= 4
    ensures EncodeBase64(DecodeBase64(text).value) == text <==> (text == [] || CanonicalGroup(text[|text| - 4..]))
  {
    if text != [] {
      var group, rest := DecodeSplit(text);
      hide EncodeGroup, DecodeGroup, CanonicalGroup, EncodeBase64, DecodeBase64;
      EncodeDecodeBase64(text[4..]);
      EncodeSplit(group, rest);
      Halves(text, EncodeGroup(group), EncodeBase64(rest));
      if |text| == 4 {
        assert text[..4] == text[|text| - 4..] && text[4..] == [];
        EncodeDecodeLast(text[..4]);
      } else {
        assert text[4..][|text[4..]| - 4..] == text[|text| - 4..];
        EncodeDecodeFull(text[..4], false);
      }
    }
  }

  lemma EncodeDecodeLast(t: bytes)
    requires |t| == 4 && DecodeGroup(t, true).Ok?
    ensures EncodeGroup(DecodeGroup(t, true).value) == t <==> CanonicalGroup(t)
  {
    if t[3] == PAD {
      EncodeDecodePadded(t, true);
    } else {
      EncodeDecodeFull(t, true);
    }
  }

  lemma Halves(text: bytes, a: bytes, b: bytes)
    requires |text| >= 4 && |a| == 4
    ensures a + b == text <==> a == text[..4] && b == text[4..]
  {
    if a + b == text {
      assert text[..4] == a && text[4..] == b;
    }
  }

  // ----- both ways, with line breaks -----

  function Encode(data: bytes, enc: Encoding): bytes {
    match enc
    case Raw => data
    case Hex => EncodeHex(data)
    case Base64 => EncodeBase64(data)
  }

  predicate Blank(b: byte, enc: Encoding) {
    match enc
    case Raw => false
    case Hex => b == 32 || b == 9 || b == 13 || b == 10
    case Base64 => b == 13 || b == 10
  }

  /** The text without the blanks its encoding ignores. */
  function Stripped(text: bytes, enc: Encoding): bytes {
    if text == [] then []
    else if Blank(text[0], enc) then Stripped(text[1..], enc)
    else [text[0]] + Stripped(text[1..], enc)
  }

  function Decode(text: bytes, enc: Encoding): Result<bytes> {
    match enc
    case Raw => Ok(text)
    case Hex => DecodeHex(Stripped(text, Hex))
    case Base64 => DecodeBase64(Stripped(text, Base64))
  }

  lemma {:induction false} StripNothing(text: bytes, enc: Encoding)
    requires forall i :: 0 <= i < |text| ==> !Blank(text[i], enc)
    ensures Stripped(text, enc) == text
  {
    if text != [] {
      StripNothing(text[1..], enc);
    }
  }

  /** Blanks can be put anywhere. */
  lemma {:induction false} StripBlanks(a: bytes, blanks: bytes, b: bytes, enc: Encoding)
    requires forall i :: 0 <= i < |blanks| ==> Blank(blanks[i], enc)
    ensures Stripped(a + blanks + b, enc) == Stripped(a + b, enc)
    decreases |a| + |blanks|
  {
    if a != [] {
      assert (a + blanks + b)[1..] == a[1..] + blanks + b && (a + b)[1..] == a[1..] + b;
      StripBlanks(a[1..], blanks, b, enc);
    } else if blanks != [] {
      assert (a + blanks + b)[1..] == a + blanks[1..] + b;
      StripBlanks(a, blanks[1..], b, enc);
    } else {
      assert a + blanks + b == a + b;
    }
  }

  lemma {:induction false} EncodingHasNoBlanks(data: bytes, enc: Encoding)
    requires !enc.Raw?
    ensures forall i :: 0 <= i < |Encode(data, enc)| ==> !Blank(Encode(data, enc)[i], enc)
  {
    if data != [] {
      var n := if enc.Hex? then 1 else First(data);
      var head := if enc.Hex? then [HexDigit(data[0] / 16), HexDigit(data[0] % 16)] else EncodeGroup(data[..n]);
      assert Encode(data, enc) == head + Encode(data[n..], enc);
      assert forall i :: 0 <= i < |head| ==> head[i] > 32;
      EncodingHasNoBlanks(data[n..], enc);
      hide EncodeGroup, EncodeHex, EncodeBase64, Symbol;
    }
  }

  /** Decoding undoes encoding, whatever blanks have been put into the text. */
  lemma DecodeUndoesEncode(data: bytes, text: bytes, enc: Encoding)
    requires if enc.Raw? then text == Encode(data, enc) else Stripped(text, enc) == Encode(data, enc)
    ensures Decode(text, enc) == Ok(data)
  {
    DecodeEncodeHex(data);
    DecodeEncodeBase64(data);
  }

  lemma DecodeEncode(data: bytes, enc: Encoding)
    ensures Decode(Encode(data, enc), enc) == Ok(data)
  {
    if !enc.Raw? {
      EncodingHasNoBlanks(data, enc);
      StripNothing(Encode(data, enc), enc);
    }
    DecodeUndoesEncode(data, Encode(data, enc), enc);
  }

  /** No two strings of octets have the same encoding. */
  lemma EncodeInjective(a: bytes, b: bytes, enc: Encoding)
    requires Encode(a, enc) == Encode(b, enc)
    ensures a == b
  {
    DecodeEncode(a, enc);
    DecodeEncode(b, enc);
  }
}
