/**
 Octet strings and the two readings DER gives them: unsigned big-endian and
 two's complement. Go's `b & 0x80 != 0` is `b >= 128` here and `b & 0x7f` is `b % 128`.
 */
module Octets {

  type byte = b: int | 0 <= b < 256
  type bytes = seq<byte>

  const TWO_63: int := 0x8000_0000_0000_0000
  const TWO_64: int := 0x1_0000_0000_0000_0000

  type int64 = v: int | -TWO_63 <= v < TWO_63

  // ----- unsigned big-endian -----

  function Pow256(k: nat): (p: nat)
    ensures p >= 1
  {
    if k == 0 then 1 else 256 * Pow256(k - 1)
  }

  function BigEndian(s: bytes): nat {
    if s == [] then 0 else 256 * BigEndian(s[..|s| - 1]) + s[|s| - 1]
  }

  /** The shortest big-endian form; zero has no octets (big.Int.Bytes). */
  function UnsignedOctets(n: nat): bytes {
    if n == 0 then [] else UnsignedOctets(n / 256) + [n % 256]
  }

  function StripZeros(s: bytes): bytes {
    if s != [] && s[0] == 0 then StripZeros(s[1..]) else s
  }

  function Zeros(n: nat): (z: bytes)
    ensures |z| == n && forall i :: 0 <= i < n ==> z[i] == 0
  {
    seq(n, _ => 0)
  }

  function LeftPad(s: bytes, width: nat): (r: bytes)
    requires |s| <= width
    ensures |r| == width
  {
    Zeros(width - |s|) + s
  }

  lemma BigEndianSnoc(s: bytes, b: byte)
    ensures BigEndian(s + [b]) == 256 * BigEndian(s) + b
  {
    assert (s + [b])[..|s|] == s;
  }

  lemma {:induction false} BigEndianBound(s: bytes)
    ensures BigEndian(s) < Pow256(|s|)
  {
    if s != [] {
      BigEndianBound(s[..|s| - 1]);
    }
  }

  lemma {:induction false} BigEndianCons(b: byte, s: bytes)
    ensures BigEndian([b] + s) == b * Pow256(|s|) + BigEndian(s)
  {
    if s == [] {
      assert [b] + s == [] + [b];
      BigEndianSnoc([], b);
    } else {
      var p, l := s[..|s| - 1], s[|s| - 1];
      assert [b] + s == ([b] + p) + [l] && s == p + [l];
      BigEndianSnoc([b] + p, l);
      BigEndianCons(b, p);
      assert 256 * (b * Pow256(|p|)) == b * Pow256(|s|);
    }
  }

  lemma {:induction false} BigEndianOfOctets(n: nat)
    ensures BigEndian(UnsignedOctets(n)) == n
  {
    if n != 0 {
      BigEndianOfOctets(n / 256);
      BigEndianSnoc(UnsignedOctets(n / 256), n % 256);
    }
  }

  lemma {:induction false} UnsignedOctetsLead(n: nat)
    requires n > 0
    ensures |UnsignedOctets(n)| > 0 && UnsignedOctets(n)[0] != 0
  {
    if n >= 256 {
      UnsignedOctetsLead(n / 256);
    } else {
      assert UnsignedOctets(n) == UnsignedOctets(0) + [n % 256];
    }
  }

  /** A number needs at most `k` octets exactly when it is below `256^k`. */
  lemma {:induction false} UnsignedOctetsFit(n: nat, k: nat)
    ensures |UnsignedOctets(n)| <= k <==> n < Pow256(k)
  {
    if n != 0 {
      if k == 0 {
        UnsignedOctetsLead(n);
      } else {
        UnsignedOctetsFit(n / 256, k - 1);
        assert n / 256 < Pow256(k - 1) <==> n < 256 * Pow256(k - 1);
      }
    }
  }

  lemma {:induction false} StripZerosSnoc(s: bytes, b: byte)
    ensures StripZeros(s + [b]) == if StripZeros(s) == [] && b == 0 then [] else StripZeros(s) + [b]
  {
    if s == [] {
      assert s + [b] == [b];
      assert [b][1..] == [];
    } else if s[0] == 0 {
      assert (s + [b])[1..] == s[1..] + [b];
      StripZerosSnoc(s[1..], b);
    }
  }

  /** Reading and rewriting an octet string loses exactly its leading zeros. */
  lemma {:induction false} OctetsOfBigEndian(s: bytes)
    ensures UnsignedOctets(BigEndian(s)) == StripZeros(s)
  {
    if s != [] {
      var p, l := s[..|s| - 1], s[|s| - 1];
      assert s == p + [l];
      OctetsOfBigEndian(p);
      StripZerosSnoc(p, l);
      if BigEndian(p) == 0 {
        assert UnsignedOctets(0) == [];
      } else {
        UnsignedOctetsLead(BigEndian(p));
      }
      assert BigEndian(s) / 256 == BigEndian(p) && BigEndian(s) % 256 == l;
    }
  }

  lemma {:induction false} LeftPadStripZeros(s: bytes)
    ensures |StripZeros(s)| <= |s|
    ensures LeftPad(StripZeros(s), |s|) == s
  {
    if s != [] && s[0] == 0 {
      LeftPadStripZeros(s[1..]);
      var t := StripZeros(s);
      assert Zeros(|s| - |t|) == [0] + Zeros(|s| - 1 - |t|);
      assert s == [0] + s[1..];
    }
  }

  lemma {:induction false} StripZerosLeftPad(s: bytes, width: nat)
    requires |s| <= width
    ensures StripZeros(LeftPad(s, width)) == StripZeros(s)
    decreases width
  {
    if |s| < width {
      assert LeftPad(s, width)[1..] == LeftPad(s, width - 1);
      StripZerosLeftPad(s, width - 1);
    } else {
      assert LeftPad(s, width) == s;
    }
  }

  // ----- two's complement -----

  function SignedValue(s: bytes): int
    requires s != []
  {
    if s[0] >= 128 then BigEndian(s) - Pow256(|s|) else BigEndian(s)
  }

  /** The shortest two's complement form, the content octets of a DER INTEGER. */
  function IntegerOctets(v: int): (s: bytes)
    ensures s != []
    decreases if v < 0 then -v else v
  {
    if -128 <= v < 128 then [v % 256] else IntegerOctets(v / 256) + [v % 256]
  }

  /** X.690 section 8.3.2: the first nine bits are neither all zero nor all one. */
  predicate Shortest(s: bytes) {
    |s| >= 1
    && (|s| >= 2 ==> !(s[0] == 0 && s[1] < 128) && !(s[0] == 255 && s[1] >= 128))
  }

  lemma SignedSnoc(s: bytes, b: byte)
    requires s != []
    ensures SignedValue(s + [b]) == 256 * SignedValue(s) + b
  {
    BigEndianSnoc(s, b);
  }

  lemma SignedSingle(b: byte)
    ensures SignedValue([b]) == if b >= 128 then b - 256 else b
  {
    BigEndianSnoc([], b);
    assert [] + [b] == [b];
    assert Pow256(1) == 256 * Pow256(0);
  }

  lemma {:induction false} SignedOfInteger(v: int)
    ensures SignedValue(IntegerOctets(v)) == v
    decreases if v < 0 then -v else v
  {
    if -128 <= v < 128 {
      SignedSingle(v % 256);
    } else {
      SignedOfInteger(v / 256);
      SignedSnoc(IntegerOctets(v / 256), v % 256);
    }
  }

  lemma {:induction false} ShortestIsLarge(s: bytes)
    requires Shortest(s) && |s| >= 2
    ensures SignedValue(s) < -128 || SignedValue(s) >= 128
  {
    var p, l := s[..|s| - 1], s[|s| - 1];
    assert s == p + [l];
    SignedSnoc(p, l);
    if |s| == 2 {
      assert p == [s[0]];
      SignedSingle(s[0]);
    } else {
      ShortestIsLarge(p);
    }
  }

  /** A shortest form is determined by its value, so it is the one `IntegerOctets` gives. */
  lemma {:induction false} ShortestIsInteger(s: bytes)
    requires Shortest(s)
    ensures s == IntegerOctets(SignedValue(s))
  {
    if |s| == 1 {
      assert s == [s[0]];
      SignedSingle(s[0]);
    } else {
      var p, l := s[..|s| - 1], s[|s| - 1];
      assert s == p + [l];
      ShortestIsInteger(p);
      SignedSnoc(p, l);
      ShortestIsLarge(s);
      assert SignedValue(s) / 256 == SignedValue(p) && SignedValue(s) % 256 == l;
    }
  }

  lemma {:induction false} IntegerIsShortest(v: int)
    ensures Shortest(IntegerOctets(v))
    decreases if v < 0 then -v else v
  {
    if !(-128 <= v < 128) {
      var q := v / 256;
      IntegerIsShortest(q);
      if -128 <= q < 128 {
        assert IntegerOctets(q) == [q % 256];
      }
    }
  }

  /** No octet string with the same value is shorter than `IntegerOctets`. */
  lemma {:induction false} IntegerOctetsLeast(s: bytes)
    requires s != []
    ensures |IntegerOctets(SignedValue(s))| <= |s|
  {
    if |s| > 1 {
      var p, l := s[..|s| - 1], s[|s| - 1];
      assert s == p + [l];
      SignedSnoc(p, l);
      IntegerOctetsLeast(p);
      assert SignedValue(s) / 256 == SignedValue(p);
    } else {
      assert s == [s[0]];
      SignedSingle(s[0]);
    }
  }

  /** `k` octets hold exactly the integers from `-128 * 256^(k-1)` up to `128 * 256^(k-1)`. */
  lemma {:induction false} IntegerOctetsFit(v: int, k: nat)
    requires k >= 1
    ensures |IntegerOctets(v)| <= k <==> -128 * Pow256(k - 1) <= v < 128 * Pow256(k - 1)
    decreases k
  {
    if !(-128 <= v < 128) {
      if k >= 2 {
        IntegerOctetsFit(v / 256, k - 1);
        assert Pow256(k - 1) == 256 * Pow256(k - 2);
      } else {
        assert |IntegerOctets(v)| >= 2;
      }
    } else {
      assert Pow256(k - 1) >= 1;
    }
  }

  lemma Int64Octets(v: int)
    ensures 1 <= |IntegerOctets(v)|
    ensures |IntegerOctets(v)| <= 8 <==> -TWO_63 <= v < TWO_63
  {
    IntegerOctetsFit(v, 8);
    assert 128 * Pow256(7) == TWO_63 by {
      assert Pow256(7) == 0x100_0000_0000_0000 by {
        assert Pow256(1) == 0x100 && Pow256(2) == 0x1_0000 && Pow256(3) == 0x100_0000;
        assert Pow256(4) == 0x1_0000_0000 && Pow256(5) == 0x100_0000_0000 && Pow256(6) == 0x1_0000_0000_0000;
      }
    }
  }

  lemma SignedWithSign(u: bytes)
    requires u != [] && u[0] != 0
    ensures var s: bytes := if u[0] >= 128 then [0] + u else u;
            Shortest(s) && SignedValue(s) == BigEndian(u)
  {
    if u[0] >= 128 {
      BigEndianCons(0, u);
      assert 0 * Pow256(|u|) == 0;
      assert ([0] + u)[0] == 0;
    }
  }

  /** A non-negative integer is its unsigned octets with a zero in front when the top bit is set. */
  lemma IntegerOfUnsigned(n: nat)
    ensures n == 0 ==> IntegerOctets(n) == [0]
    ensures n > 0 ==> var u := UnsignedOctets(n);
                      u != [] && IntegerOctets(n) == if u[0] >= 128 then [0] + u else u
  {
    if n > 0 {
      var u := UnsignedOctets(n);
      UnsignedOctetsLead(n);
      BigEndianOfOctets(n);
      SignedWithSign(u);
      ShortestIsInteger(if u[0] >= 128 then [0] + u else u);
    }
  }

  /** Data that came in pieces. */
  function Concat(chunks: seq<bytes>): bytes {
    if chunks == [] then [] else Concat(chunks[..|chunks| - 1]) + chunks[|chunks| - 1]
  }

  lemma ConcatAssociates(a: bytes, b: bytes, c: bytes)
    ensures (a + b) + c == a + (b + c)
  {
  }
}
