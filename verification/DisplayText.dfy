/** The four DisplayText alternatives, decoded to the octets of a Go string. */
module DisplayText {
  import opened Results
  import opened Octets
  import opened Der

  const REPLACEMENT: nat := 0xFFFD

  /** Big-endian UTF-16 code units. */
  function Units(content: bytes): (u: seq<nat>)
    requires |content| % 2 == 0
    ensures |u| == |content| / 2 && forall i :: 0 <= i < |u| ==> u[i] < 0x1_0000
  {
    if content == [] then []
    else
      var high: nat, low: nat := content[|content| - 2], content[|content| - 1];
      Units(content[..|content| - 2]) + [256 * high + low]
  }

  /** utf16.Decode: surrogate pairs join, lone surrogates become U+FFFD. */
  function DecodeUtf16(units: seq<nat>): seq<nat> {
    if units == [] then []
    else if units[0] < 0xD800 || units[0] >= 0xE000 then [units[0]] + DecodeUtf16(units[1..])
    else if units[0] < 0xDC00 && |units| > 1 && 0xDC00 <= units[1] < 0xE000 then
      [0x1_0000 + (units[0] - 0xD800) * 1024 + (units[1] - 0xDC00)] + DecodeUtf16(units[2..])
    else [REPLACEMENT] + DecodeUtf16(units[1..])
  }

  function Utf8(rune: nat): bytes {
    if rune < 0x80 then [rune]
    else if rune < 0x800 then [0xC0 + rune / 64, 0x80 + rune % 64]
    else if rune < 0x1_0000 then [0xE0 + rune / 4096, 0x80 + rune / 64 % 64, 0x80 + rune % 64]
    else [0xF0 + rune / 262144 % 8, 0x80 + rune / 4096 % 64, 0x80 + rune / 64 % 64, 0x80 + rune % 64]
  }

  /** string(runes). */
  function Text(runes: seq<nat>): bytes {
    if runes == [] then [] else Utf8(runes[0]) + Text(runes[1..])
  }

  function Decode(tag: byte, content: bytes): Result<bytes> {
    if tag == TAG_UTF8 || tag == TAG_VISIBLE || tag == TAG_IA5 then Ok(content)
    else if tag == TAG_BMP && |content| % 2 == 0 then Ok(Text(DecodeUtf16(Units(content))))
    else Err
  }
}
