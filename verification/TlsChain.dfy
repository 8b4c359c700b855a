/**
 Rebuilding a peer's certificate chain: from the leaf, again and again the issuer of the last
 certificate among the candidates not used yet.
 */
module TlsChain {
  import opened Octets

  /** A certificate object; two objects with the same contents are still two certificates. */
  class Certificate {
    const subject: string
    const issuer: string
    const subjectKey: bytes
    const authorityKey: bytes

    constructor (subject: string, issuer: string, subjectKey: bytes, authorityKey: bytes)
      ensures this.subject == subject && this.issuer == issuer
      ensures this.subjectKey == subjectKey && this.authorityKey == authorityKey
    {
      this.subject, this.issuer := subject, issuer;
      this.subjectKey, this.authorityKey := subjectKey, authorityKey;
    }
  }

  // ----- which certificate issued which -----

  predicate MatchesKey(c: Certificate, current: Certificate) {
    current.authorityKey != [] && c.subjectKey == current.authorityKey
  }

  predicate MatchesText(c: Certificate, current: Certificate) {
    c.subject == current.issuer
  }

  predicate Issues(c: Certificate, current: Certificate) {
    MatchesKey(c, current) || MatchesText(c, current)
  }

  predicate Matches(byKey: bool, c: Certificate, current: Certificate) {
    if byKey then MatchesKey(c, current) else MatchesText(c, current)
  }

  /** Position `i` is the first unused candidate that matches. */
  predicate FirstUnused(current: Certificate, candidates: seq<Certificate>, used: set<Certificate>,
                        byKey: bool, i: nat)
  {
    i < |candidates| && candidates[i] !in used && Matches(byKey, candidates[i], current)
    && forall j :: 0 <= j < i ==> candidates[j] in used || !Matches(byKey, candidates[j], current)
  }

  predicate NoUnused(current: Certificate, candidates: seq<Certificate>, used: set<Certificate>, byKey: bool) {
    forall i :: 0 <= i < |candidates| ==> candidates[i] in used || !Matches(byKey, candidates[i], current)
  }

  predicate NextAt(current: Certificate, candidates: seq<Certificate>, used: set<Certificate>, i: nat) {
    FirstUnused(current, candidates, used, true, i)
    || (NoUnused(current, candidates, used, true) && FirstUnused(current, candidates, used, false, i))
  }

  /** The next certificate: the first key match if there is one, else the first text match. */
  ghost predicate IsNext(current: Certificate, candidates: seq<Certificate>, used: set<Certificate>,
                         next: Certificate)
  {
    exists i :: 0 <= i < |candidates| && candidates[i] == next && NextAt(current, candidates, used, i)
  }

  predicate HasNone(current: Certificate, candidates: seq<Certificate>, used: set<Certificate>) {
    forall i :: 0 <= i < |candidates| ==> candidates[i] in used || !Issues(candidates[i], current)
  }

  predicate SelfSigned(c: Certificate) {
    c.issuer == c.subject && (c.authorityKey == [] || c.subjectKey == [] || c.authorityKey == c.subjectKey)
  }

  // ----- the search -----

  method FindIssuer(current: Certificate, candidates: seq<Certificate>, used: set<Certificate>)
    returns (next: Certificate?)
    ensures next == null ==> HasNone(current, candidates, used)
    ensures next != null ==> next in candidates && next !in used && IsNext(current, candidates, used, next)
  {
    if |current.authorityKey| > 0 {
      for i := 0 to |candidates|
        invariant forall j :: 0 <= j < i ==> candidates[j] in used || !Matches(true, candidates[j], current)
      {
        if candidates[i] !in used && candidates[i].subjectKey == current.authorityKey {
          assert NextAt(current, candidates, used, i);
          return candidates[i];
        }
      }
    }
    assert NoUnused(current, candidates, used, true);
    for i := 0 to |candidates|
      invariant forall j :: 0 <= j < i ==> candidates[j] in used || !Matches(false, candidates[j], current)
    {
      if candidates[i] !in used && candidates[i].subject == current.issuer {
        assert NextAt(current, candidates, used, i);
        return candidates[i];
      }
    }
    return null;
  }

  /** What a rebuilt chain is, said without the search. */
  ghost predicate IsChain(leaf: Certificate, candidates: seq<Certificate>, out: seq<Certificate>) {
    StepsUp(leaf, candidates, out)
    && (SelfSigned(out[|out| - 1]) || HasNone(out[|out| - 1], candidates, Elements(out)))
  }

  function Elements(out: seq<Certificate>): set<Certificate> {
    set c | c in out
  }

  /** From the leaf up, each certificate is the next of the one before it, and only the last may be self-signed. */
  ghost predicate StepsUp(leaf: Certificate, candidates: seq<Certificate>, out: seq<Certificate>) {
    out != [] && out[0] == leaf
    && (forall i, j :: 0 <= i < j < |out| ==> out[i] != out[j])
    && (forall i :: 0 < i < |out| ==> out[i] in candidates)
    && (forall i :: 0 <= i < |out| - 1 ==> !SelfSigned(out[i]))
    && (forall i :: 0 <= i < |out| - 1 ==> IsNext(out[i], candidates, Elements(out[..i + 1]), out[i + 1]))
  }

  method RebuildChain(leaf: Certificate?, candidates: seq<Certificate>) returns (out: seq<Certificate>)
    ensures leaf == null ==> out == []
    ensures leaf != null ==> IsChain(leaf, candidates, out)
  {
    if leaf == null {
      return [];
    }
    out := [leaf];
    if |candidates| == 0 {
      return;
    }
    var used := {leaf};
    var current := leaf;
    while !SelfSigned(current)
      invariant StepsUp(leaf, candidates, out) && current == out[|out| - 1] && used == Elements(out)
      decreases Elements(candidates) - used
    {
      var next := FindIssuer(current, candidates, used);
      if next == null {
        break;
      }
      StepUp(leaf, candidates, out, next);
      out := out + [next];
      used := used + {next};
      current := next;
    }
  }

  lemma StepUp(leaf: Certificate, candidates: seq<Certificate>, out: seq<Certificate>, next: Certificate)
    requires StepsUp(leaf, candidates, out) && !SelfSigned(out[|out| - 1])
    requires next in candidates && next !in Elements(out) && IsNext(out[|out| - 1], candidates, Elements(out), next)
    ensures StepsUp(leaf, candidates, out + [next]) && Elements(out + [next]) == Elements(out) + {next}
  {
    hide IsNext, SelfSigned;
    var more := out + [next];
    assert more[..|out|] == out;
    forall i | 0 <= i < |out| - 1
      ensures IsNext(more[i], candidates, Elements(more[..i + 1]), more[i + 1])
    {
      assert more[..i + 1] == out[..i + 1];
      assert IsNext(out[i], candidates, Elements(out[..i + 1]), out[i + 1]);
    }
  }

  // ----- the description leaves no choice -----

  lemma NextIsUnique(current: Certificate, candidates: seq<Certificate>, used: set<Certificate>,
                     a: Certificate, b: Certificate)
    requires IsNext(current, candidates, used, a) && IsNext(current, candidates, used, b)
    ensures a == b && a !in used && Issues(a, current)
  {
    var i :| 0 <= i < |candidates| && candidates[i] == a && NextAt(current, candidates, used, i);
    var j :| 0 <= j < |candidates| && candidates[j] == b && NextAt(current, candidates, used, j);
  }

  /** Two chains of the same certificates agree on their common length. */
  lemma {:induction false} StepsAgree(leaf: Certificate, candidates: seq<Certificate>,
                                      a: seq<Certificate>, b: seq<Certificate>, n: nat)
    requires StepsUp(leaf, candidates, a) && StepsUp(leaf, candidates, b) && n <= |a| && n <= |b|
    ensures a[..n] == b[..n]
  {
    if n > 1 {
      hide IsNext, SelfSigned;
      StepsAgree(leaf, candidates, a, b, n - 1);
      var i := n - 2;
      assert a[..n - 1][i] == b[..n - 1][i];
      assert IsNext(a[i], candidates, Elements(a[..i + 1]), a[i + 1]);
      assert IsNext(b[i], candidates, Elements(b[..i + 1]), b[i + 1]);
      NextIsUnique(a[i], candidates, Elements(a[..i + 1]), a[i + 1], b[i + 1]);
      assert a[..n] == a[..n - 1] + [a[n - 1]];
      assert b[..n] == b[..n - 1] + [b[n - 1]];
    }
  }

  /** A chain that has ended cannot be continued: neither past a self-signed certificate nor where nobody issued. */
  lemma EndIsEnd(leaf: Certificate, candidates: seq<Certificate>, a: seq<Certificate>, b: seq<Certificate>)
    requires IsChain(leaf, candidates, a) && StepsUp(leaf, candidates, b)
    ensures |b| <= |a|
  {
    if |a| < |b| {
      var i := |a| - 1;
      StepsAgree(leaf, candidates, a, b, |a|);
      assert a == a[..|a|] == b[..|a|];
      assert a[i] == b[i];
      assert IsNext(b[i], candidates, Elements(b[..i + 1]), b[i + 1]);
      NextIsUnique(b[i], candidates, Elements(a), b[i + 1], b[i + 1]);
      assert false;
    }
  }

  /** There is only one such chain, so its description is all there is to know about the result. */
  lemma ChainIsUnique(leaf: Certificate, candidates: seq<Certificate>, a: seq<Certificate>, b: seq<Certificate>)
    requires IsChain(leaf, candidates, a) && IsChain(leaf, candidates, b)
    ensures a == b
  {
    EndIsEnd(leaf, candidates, a, b);
    EndIsEnd(leaf, candidates, b, a);
    StepsAgree(leaf, candidates, a, b, |a|);
    assert a == a[..|a|] && b == b[..|a|];
  }

  // ----- certificates linked although their key identifiers differ -----

  /** Both key identifiers are there and they differ. */
  predicate KeysDiffer(current: Certificate, next: Certificate) {
    current.authorityKey != [] && next.subjectKey != [] && next.subjectKey != current.authorityKey
  }

  /**
   An authority key is given, no unused candidate has it, and the first unused candidate with the
   issuer's name has a key identifier.
   */
  ghost predicate NameOverKey(current: Certificate, candidates: seq<Certificate>, used: set<Certificate>) {
    current.authorityKey != [] && NoUnused(current, candidates, used, true)
    && exists i :: 0 <= i < |candidates| && FirstUnused(current, candidates, used, false, i)
                   && candidates[i].subjectKey != []
  }

  /** The search links certificates whose key identifiers differ exactly when it falls back on the name like that. */
  lemma NextMayDiffer(current: Certificate, candidates: seq<Certificate>, used: set<Certificate>, next: Certificate)
    requires IsNext(current, candidates, used, next)
    ensures KeysDiffer(current, next) <==> NameOverKey(current, candidates, used)
  {
    var i :| 0 <= i < |candidates| && candidates[i] == next && NextAt(current, candidates, used, i);
    if NameOverKey(current, candidates, used) {
      var k :| 0 <= k < |candidates| && FirstUnused(current, candidates, used, false, k)
               && candidates[k].subjectKey != [];
      assert candidates[i] in used || !Matches(true, candidates[i], current);
      assert i == k;
      assert !MatchesKey(next, current);
    }
  }

  /** The whole search, before it is made: it ends in a link with differing keys exactly under that condition. */
  lemma SearchMayDiffer(current: Certificate, candidates: seq<Certificate>, used: set<Certificate>)
    ensures (exists next :: next in candidates && IsNext(current, candidates, used, next) && KeysDiffer(current, next))
            <==> NameOverKey(current, candidates, used)
  {
    if NameOverKey(current, candidates, used) {
      var k :| 0 <= k < |candidates| && FirstUnused(current, candidates, used, false, k)
               && candidates[k].subjectKey != [];
      assert NextAt(current, candidates, used, k);
      assert IsNext(current, candidates, used, candidates[k]);
      NextMayDiffer(current, candidates, used, candidates[k]);
    }
    forall next | next in candidates && IsNext(current, candidates, used, next)
      ensures KeysDiffer(current, next) <==> NameOverKey(current, candidates, used)
    {
      NextMayDiffer(current, candidates, used, next);
    }
  }

  /** Every link of a rebuilt chain, from the leaf to its end. */
  lemma ChainMayDiffer(leaf: Certificate, candidates: seq<Certificate>, out: seq<Certificate>, i: nat)
    requires IsChain(leaf, candidates, out) && i < |out| - 1
    ensures KeysDiffer(out[i], out[i + 1]) <==> NameOverKey(out[i], candidates, Elements(out[..i + 1]))
  {
    hide IsNext, NameOverKey, KeysDiffer;
    assert IsNext(out[i], candidates, Elements(out[..i + 1]), out[i + 1]);
    NextMayDiffer(out[i], candidates, Elements(out[..i + 1]), out[i + 1]);
  }

  /** A leaf whose authority key is 1 and a candidate with its issuer's name whose key is 2 are linked. */
  method LinkDespiteKeys() returns (leaf: Certificate, other: Certificate, out: seq<Certificate>)
    ensures leaf.authorityKey == [1] && other.subjectKey == [2] && KeysDiffer(leaf, other)
    ensures out == [leaf, other] && IsChain(leaf, [other], out)
  {
    leaf := new Certificate("leaf", "ca", [], [1]);
    other := new Certificate("ca", "ca", [2], []);
    out := RebuildChain(leaf, [other]);
    LinkIsChain(leaf, other);
    ChainIsUnique(leaf, [other], out, [leaf, other]);
  }

  lemma LinkIsChain(leaf: Certificate, other: Certificate)
    requires leaf != other && !SelfSigned(leaf) && SelfSigned(other) && MatchesText(other, leaf)
    ensures IsChain(leaf, [other], [leaf, other])
  {
    var out := [leaf, other];
    assert out[..1] == [leaf];
    assert Elements([leaf]) == {leaf};
    assert NextAt(leaf, [other], {leaf}, 0) && [other][0] == other;
    assert IsNext(leaf, [other], {leaf}, other);
  }
}
