/**
 DER trees: the header reader both parsers share, the grammar of well-formed trees, and the two
 parsers as value-level functions. A slice `s` that starts at absolute offset `base` stands for
 Go's `der[base:...]`.
 */
module Asn1Grammar {
  import opened Results
  import opened Octets
  import Der
  import Oids

  // ----- headers -----

  function WrapInt64(v: int): int64 {
    (v + TWO_63) % TWO_64 - TWO_63
  }

  datatype Header = Header(tag: byte, tagClass: nat, number: int64, constructed: bool, size: nat, length: nat) {
    function Extent(): nat {
      size + length
    }
  }

  datatype Run = Run(value: int, used: nat)

  /** Where the groups of a high tag number starting at `off` end. */
  function TagEnd(s: bytes, off: nat): (r: Result<nat>)
    ensures r.Ok? ==> off < r.value <= |s|
    decreases |s| - off
  {
    if off >= |s| then Err
    else if s[off] < 128 then Ok(off + 1)
    else TagEnd(s, off + 1)
  }

  /** The base-128 number of some groups, in an int that wraps. */
  function TagNumber(groups: bytes): int64 {
    if groups == [] then 0
    else WrapInt64(TagNumber(groups[..|groups| - 1]) * 128 + groups[|groups| - 1] % 128)
  }

  function ParseLength(s: bytes): (r: Result<Run>)
    ensures r.Ok? ==> 0 < r.value.used <= |s| && r.value.value >= 0
  {
    if s == [] then Err
    else if s[0] < 128 then Ok(Run(s[0], 1))
    else
      var n := s[0] - 128;
      if n == 0 || n > 4 || 1 + n > |s| then Err
      else Ok(Run(BigEndian(s[1..1 + n]), 1 + n))
  }

  function ParseHeader(s: bytes): (r: Result<Header>)
    ensures r.Ok? ==> r.value.size >= 2 && r.value.Extent() <= |s|
  {
    if s == [] then Err else
    var high := s[0] % 32 == 31;
    var off :- if high then TagEnd(s, 1) else Ok(1);
    var length :- ParseLength(s[off..]);
    var size := off + length.used;
    if length.value > |s| - size then Err
    else Ok(Header(s[0], s[0] / 64, if high then TagNumber(s[1..off]) else s[0] % 32,
                   s[0] / 32 % 2 == 1, size, length.value))
  }

  /** How often 2^64 was taken off. */
  lemma WrapTurns(v: int) returns (k: int)
    ensures WrapInt64(v) == v - k * TWO_64
  {
    k := (v + TWO_63) / TWO_64;
  }

  lemma WrapShifted(v: int, k: int)
    ensures WrapInt64(v + k * TWO_64) == WrapInt64(v)
  {
    assert v + k * TWO_64 + TWO_63 == (v + TWO_63) + k * TWO_64;
  }

  /** A wrapping tag number is the number its groups denote, reduced to an int. */
  lemma {:induction false} TagNumberValue(groups: bytes)
    ensures TagNumber(groups) == WrapInt64(Oids.GroupValue(groups))
  {
    if groups != [] {
      var p, b := groups[..|groups| - 1], groups[|groups| - 1] % 128;
      TagNumberValue(p);
      var v := Oids.GroupValue(p);
      var k := WrapTurns(v);
      hide WrapInt64;
      assert WrapInt64(v) * 128 + b == (128 * v + b) + (-128 * k) * TWO_64;
      WrapShifted(128 * v + b, -128 * k);
    }
  }

  /** On low tag numbers this header reader and the cursor of the policy parser read the same elements. */
  lemma HeaderReadsElement(s: bytes)
    requires s != [] && s[0] % 32 != 31
    ensures Der.ReadElement(s) ==
            match ParseHeader(s)
            case Err => Err
            case Ok(h) => Ok(Der.Element(h.tag, s[h.size..h.Extent()], s[h.Extent()..]))
  {
    var t := s[1..];
    if |s| >= 2 && s[1] >= 128 && 1 + (s[1] - 128) <= |t| {
      assert t[1..1 + (s[1] - 128)] == s[2..2 + (s[1] - 128)];
    }
  }

  // ----- trees and their grammar -----

  datatype Node = Node(offset: nat, tag: byte, tagClass: nat, number: int64, constructed: bool,
                       length: nat, value: bytes, children: seq<Node>)

  /** The node a header describes, before its children are attached. */
  function Leaf(s: bytes, base: nat, h: Header): Node
    requires h.Extent() <= |s|
  {
    Node(base, h.tag, h.tagClass, h.number, h.constructed, h.length, s[h.size..h.Extent()], [])
  }

  /** `t` is the tree of the element at the front of `s`, which ends `h.Extent()` octets later. */
  predicate IsElement(t: Node, s: bytes, base: nat)
    decreases t, 1
  {
    match ParseHeader(s)
    case Err => false
    case Ok(h) =>
      t.(children := []) == Leaf(s, base, h)
      && if h.constructed then Tiles(t.children, t.value, base + h.size) else t.children == []
  }

  /** The trees lie end to end and cover `s` exactly. */
  predicate Tiles(ts: seq<Node>, s: bytes, base: nat)
    decreases ts, 0
  {
    if ts == [] then s == []
    else
      IsElement(ts[0], s, base)
      && var e := ParseHeader(s).value.Extent();
         Tiles(ts[1..], s[e..], base + e)
  }

  /** One element that uses all of `der`. */
  predicate IsDocument(t: Node, der: bytes) {
    IsElement(t, der, 0) && ParseHeader(der).value.Extent() == |der|
  }

  function Max(a: nat, b: nat): nat {
    if a >= b then a else b
  }

  /** Nested constructed layers. */
  function Layers(t: Node): nat
    decreases t, 1
  {
    if t.constructed then 1 + MostLayers(t.children) else 0
  }

  function MostLayers(ts: seq<Node>): nat
    decreases ts, 0
  {
    if ts == [] then 0 else Max(Layers(ts[0]), MostLayers(ts[1..]))
  }

  function Count(t: Node): nat
    decreases t, 1
  {
    1 + CountAll(t.children)
  }

  function CountAll(ts: seq<Node>): nat
    decreases ts, 0
  {
    if ts == [] then 0 else Count(ts[0]) + CountAll(ts[1..])
  }

  // ----- the recursive parser -----

  /** A node and how many octets it took. */
  datatype Parsed = Parsed(node: Node, used: nat)

  function ParseNode(s: bytes, base: nat, depth: int): (r: Result<Parsed>)
    ensures r.Ok? ==> 0 < r.value.used <= |s|
    decreases |s|, 0
  {
    var h :- ParseHeader(s);
    var leaf := Leaf(s, base, h);
    if !h.constructed then Ok(Parsed(leaf, h.Extent()))
    else if depth <= 0 then Err
    else
      var cs :- ParseForest(leaf.value, base + h.size, depth - 1);
      Ok(Parsed(leaf.(children := cs), h.Extent()))
  }

  function ParseForest(s: bytes, base: nat, depth: int): Result<seq<Node>>
    decreases |s|, 1
  {
    if s == [] then Ok([]) else
    var p :- ParseNode(s, base, depth);
    var ts :- ParseForest(s[p.used..], base + p.used, depth);
    Ok([p.node] + ts)
  }

  const MAX_DER_DEPTH: int := 128

  function Parse(der: bytes): Result<Node> {
    if der == [] then Err else
    var p :- ParseNode(der, 0, MAX_DER_DEPTH);
    if p.used == |der| then Ok(p.node) else Err
  }

  // ----- the parser with limits -----

  datatype LimitError = BadLimits | Malformed | DepthExceeded | NodesExceeded

  datatype Outcome<+T> = Done(value: T) | Refused(error: LimitError) {
    predicate IsFailure() {
      Refused?
    }

    function PropagateFailure<U>(): Outcome<U>
      requires Refused?
    {
      Refused(error)
    }

    function Extract(): T
      requires Done?
    {
      value
    }
  }

  datatype Limits = Limits(depth: nat, nodes: nat)

  datatype Forest = Forest(trees: seq<Node>, count: nat)

  /** The children of a node on layer `layer`, `count` nodes having been read before. */
  function LimitChildren(constructed: bool, s: bytes, base: nat, layer: nat, lim: Limits, count: nat): Outcome<Forest>
    decreases |s|, 2
  {
    if !constructed then Done(Forest([], count))
    else if layer >= lim.depth then Refused(DepthExceeded)
    else LimitForest(s, base, layer, lim, count)
  }

  function LimitForest(s: bytes, base: nat, layer: nat, lim: Limits, count: nat): Outcome<Forest>
    decreases |s|, 1
  {
    if s == [] then Done(Forest([], count))
    else if count >= lim.nodes then Refused(NodesExceeded)
    else match ParseHeader(s)
      case Err => Refused(Malformed)
      case Ok(h) =>
        var leaf := Leaf(s, base, h);
        var below :- LimitChildren(h.constructed, leaf.value, base + h.size, layer + 1, lim, count + 1);
        var after :- LimitForest(s[h.Extent()..], base + h.Extent(), layer, lim, below.count);
        Done(Forest([leaf.(children := below.trees)] + after.trees, after.count))
  }

  function ParseWithLimits(der: bytes, maxDepth: int, maxNodes: int): Outcome<Node> {
    if maxDepth <= 0 || maxNodes <= 0 then Refused(BadLimits)
    else match ParseHeader(der)
      case Err => Refused(Malformed)
      case Ok(h) =>
        if h.Extent() != |der| then Refused(Malformed) else
        var leaf := Leaf(der, 0, h);
        var below :- LimitChildren(h.constructed, leaf.value, h.size, 0, Limits(maxDepth, maxNodes), 1);
        Done(leaf.(children := below.trees))
  }

  // ----- the recursive parser accepts the grammar -----

  lemma {:induction false} NodeIsElement(s: bytes, base: nat, depth: nat, p: Parsed)
    requires ParseNode(s, base, depth) == Ok(p)
    ensures IsElement(p.node, s, base) && Layers(p.node) <= depth && p.used == ParseHeader(s).value.Extent()
    decreases |s|, 0
  {
    hide ParseHeader;
    var h := ParseHeader(s).value;
    var leaf := Leaf(s, base, h);
    if h.constructed {
      var cs := ParseForest(leaf.value, base + h.size, depth - 1).value;
      ForestTiles(leaf.value, base + h.size, depth - 1, cs);
      assert p.node == leaf.(children := cs);
    } else {
      assert p.node == leaf;
    }
  }

  lemma {:induction false} ForestTiles(s: bytes, base: nat, depth: nat, ts: seq<Node>)
    requires ParseForest(s, base, depth) == Ok(ts)
    ensures Tiles(ts, s, base) && MostLayers(ts) <= depth
    decreases |s|, 1
  {
    hide ParseHeader;
    if s != [] {
      var p := ParseNode(s, base, depth).value;
      var rest := ParseForest(s[p.used..], base + p.used, depth).value;
      HeadAndTail(ts, p.node, rest);
      NodeIsElement(s, base, depth, p);
      ForestTiles(s[p.used..], base + p.used, depth, rest);
    }
  }

  lemma HeadAndTail<T>(xs: seq<T>, x: T, rest: seq<T>)
    requires xs == [x] + rest
    ensures xs != [] && xs[0] == x && xs[1..] == rest
  {
  }

  lemma {:induction false} ElementIsNode(t: Node, s: bytes, base: nat, depth: nat)
    requires IsElement(t, s, base) && Layers(t) <= depth
    ensures ParseNode(s, base, depth) == Ok(Parsed(t, ParseHeader(s).value.Extent()))
    decreases t, 1
  {
    hide ParseHeader;
    var h := ParseHeader(s).value;
    if h.constructed {
      TilesForest(t.children, t.value, base + h.size, depth - 1);
    }
    LeafOf(t, s, base);
  }

  lemma LeafOf(t: Node, s: bytes, base: nat)
    requires IsElement(t, s, base)
    ensures Leaf(s, base, ParseHeader(s).value).(children := t.children) == t
  {
    assert t.(children := []).(children := t.children) == t;
  }

  lemma {:induction false} TilesForest(ts: seq<Node>, s: bytes, base: nat, depth: nat)
    requires Tiles(ts, s, base) && MostLayers(ts) <= depth
    ensures ParseForest(s, base, depth) == Ok(ts)
    decreases ts, 0
  {
    hide ParseHeader;
    if ts != [] {
      var e := ParseHeader(s).value.Extent();
      ElementIsNode(ts[0], s, base, depth);
      TilesForest(ts[1..], s[e..], base + e, depth);
      assert [ts[0]] + ts[1..] == ts;
    }
  }

  /** `Parse` accepts exactly the well-formed trees with at most 128 constructed layers. */
  lemma ParseAccepts(der: bytes, t: Node)
    ensures Parse(der) == Ok(t) <==> IsDocument(t, der) && Layers(t) <= 128
  {
    if Parse(der) == Ok(t) {
      NodeIsElement(der, 0, 128, Parsed(t, |der|));
    }
    if IsDocument(t, der) && Layers(t) <= 128 {
      ElementIsNode(t, der, 0, 128);
    }
  }

  /** The grammar is unambiguous. */
  lemma OneTree(t: Node, u: Node, s: bytes, base: nat)
    requires IsElement(t, s, base) && IsElement(u, s, base)
    ensures t == u
  {
    var depth := Max(Layers(t), Layers(u));
    ElementIsNode(t, s, base, depth);
    ElementIsNode(u, s, base, depth);
  }

  // ----- the limited parser accepts the grammar within its limits -----

  lemma {:induction false} LimitChildrenTile(leaf: Node, base: nat, layer: nat, lim: Limits, count: nat, f: Forest)
    requires leaf.children == [] && layer <= lim.depth && count <= lim.nodes
    requires LimitChildren(leaf.constructed, leaf.value, base, layer, lim, count) == Done(f)
    ensures if leaf.constructed then Tiles(f.trees, leaf.value, base) else f.trees == []
    ensures layer + Layers(leaf.(children := f.trees)) <= lim.depth
    ensures f.count == count + CountAll(f.trees) <= lim.nodes
    decreases |leaf.value|, 1
  {
    if leaf.constructed {
      LimitForestTiles(leaf.value, base, layer, lim, count, f);
    }
  }

  lemma {:induction false} LimitForestTiles(s: bytes, base: nat, layer: nat, lim: Limits, count: nat, f: Forest)
    requires LimitForest(s, base, layer, lim, count) == Done(f) && layer < lim.depth && count <= lim.nodes
    ensures Tiles(f.trees, s, base) && layer + 1 + MostLayers(f.trees) <= lim.depth
    ensures f.count == count + CountAll(f.trees) <= lim.nodes
    decreases |s|, 0
  {
    hide ParseHeader;
    if s != [] {
      var h := ParseHeader(s).value;
      var leaf := Leaf(s, base, h);
      var below := LimitChildren(h.constructed, leaf.value, base + h.size, layer + 1, lim, count + 1).value;
      var after := LimitForest(s[h.Extent()..], base + h.Extent(), layer, lim, below.count).value;
      LimitChildrenTile(leaf, base + h.size, layer + 1, lim, count + 1, below);
      LimitForestTiles(s[h.Extent()..], base + h.Extent(), layer, lim, below.count, after);
      HeadAndTail(f.trees, leaf.(children := below.trees), after.trees);
    }
  }

  /**
   `o` is the forest `ts`, its nodes bringing the count to `count`, or a refusal for a limit that
   `layers` layers or that count exceeds.
   */
  predicate Verdict(o: Outcome<Forest>, ts: seq<Node>, layers: nat, count: nat, lim: Limits) {
    match o
    case Done(f) => f == Forest(ts, count) && count <= lim.nodes
    case Refused(e) => (e == DepthExceeded && layers > lim.depth) || (e == NodesExceeded && count > lim.nodes)
  }

  lemma {:induction false} ElementLimits(t: Node, s: bytes, base: nat, layer: nat, lim: Limits, count: nat)
    requires IsElement(t, s, base) && layer <= lim.depth && count <= lim.nodes
    ensures Verdict(LimitChildren(t.constructed, t.value, base + ParseHeader(s).value.size, layer, lim, count),
                    t.children, layer + Layers(t), count + CountAll(t.children), lim)
    decreases t, 1
  {
    hide ParseHeader;
    if t.constructed && layer < lim.depth {
      TilesLimits(t.children, t.value, base + ParseHeader(s).value.size, layer, lim, count);
    }
  }

  /** One step of the limited parser: its first element, then the rest. */
  lemma LimitForestStep(t: Node, s: bytes, base: nat, layer: nat, lim: Limits, count: nat)
    requires IsElement(t, s, base) && count < lim.nodes
    ensures var h := ParseHeader(s).value;
            var below := LimitChildren(t.constructed, t.value, base + h.size, layer + 1, lim, count + 1);
            var o := LimitForest(s, base, layer, lim, count);
            if below.Refused? then o == Refused(below.error)
            else
              var after := LimitForest(s[h.Extent()..], base + h.Extent(), layer, lim, below.value.count);
              if after.Refused? then o == Refused(after.error)
              else o == Done(Forest([t.(children := below.value.trees)] + after.value.trees, after.value.count))
  {
    hide ParseHeader;
    LeafOf(t, s, base);
  }

  /** What the limited parser does on well-formed trees: it stops only at a limit they exceed. */
  lemma {:induction false} TilesLimits(ts: seq<Node>, s: bytes, base: nat, layer: nat, lim: Limits, count: nat)
    requires Tiles(ts, s, base) && layer < lim.depth && count <= lim.nodes
    ensures Verdict(LimitForest(s, base, layer, lim, count),
                    ts, layer + 1 + MostLayers(ts), count + CountAll(ts), lim)
    decreases ts, 0
  {
    hide ParseHeader;
    if ts != [] && count < lim.nodes {
      var h := ParseHeader(s).value;
      ElementLimits(ts[0], s, base, layer + 1, lim, count + 1);
      LimitForestStep(ts[0], s, base, layer, lim, count);
      var below := LimitChildren(ts[0].constructed, ts[0].value, base + h.size, layer + 1, lim, count + 1);
      if below.Done? {
        TilesLimits(ts[1..], s[h.Extent()..], base + h.Extent(), layer, lim, below.value.count);
        assert [ts[0]] + ts[1..] == ts;
      }
    }
  }

  /**
   `ParseWithLimits` accepts exactly the well-formed trees within both limits; a well-formed
   document is refused only for the limit it exceeds.
   */
  lemma ParseWithLimitsAccepts(der: bytes, maxDepth: int, maxNodes: int, t: Node)
    ensures ParseWithLimits(der, maxDepth, maxNodes) == Done(t)
            <==> maxDepth > 0 && maxNodes > 0
                 && IsDocument(t, der) && Layers(t) <= maxDepth && Count(t) <= maxNodes
    ensures maxDepth > 0 && maxNodes > 0 && IsDocument(t, der) ==>
              var r := ParseWithLimits(der, maxDepth, maxNodes);
              r == Done(t)
              || (r == Refused(DepthExceeded) && Layers(t) > maxDepth)
              || (r == Refused(NodesExceeded) && Count(t) > maxNodes)
  {
    if maxDepth > 0 && maxNodes > 0 && ParseHeader(der).Ok? {
      var h := ParseHeader(der).value;
      var lim := Limits(maxDepth, maxNodes);
      var leaf := Leaf(der, 0, h);
      if ParseWithLimits(der, maxDepth, maxNodes) == Done(t) {
        LimitChildrenTile(leaf, h.size, 0, lim, 1,
                          LimitChildren(h.constructed, leaf.value, h.size, 0, lim, 1).value);
        assert t.(children := []) == leaf;
      }
      if IsDocument(t, der) {
        ElementLimits(t, der, 0, 0, lim, 1);
        LeafOf(t, der, 0);
      }
    }
  }

  // ----- what the two parsers share -----

  lemma {:induction false} ElementCount(t: Node, s: bytes, base: nat)
    requires IsElement(t, s, base)
    ensures 2 * Count(t) <= ParseHeader(s).value.Extent()
    decreases t, 1
  {
    hide ParseHeader;
    if t.constructed {
      TilesCount(t.children, t.value, base + ParseHeader(s).value.size);
    }
  }

  lemma {:induction false} TilesCount(ts: seq<Node>, s: bytes, base: nat)
    requires Tiles(ts, s, base)
    ensures 2 * CountAll(ts) <= |s|
    decreases ts, 0
  {
    hide ParseHeader;
    if ts != [] {
      var e := ParseHeader(s).value.Extent();
      ElementCount(ts[0], s, base);
      TilesCount(ts[1..], s[e..], base + e);
    }
  }

  /** With depth 128 and enough nodes for any input of its length, the two parsers are one function. */
  lemma ParsersAgree(der: bytes, maxNodes: int)
    requires maxNodes >= |der| && maxNodes > 0
    ensures match Parse(der)
            case Ok(t) => ParseWithLimits(der, MAX_DER_DEPTH, maxNodes) == Done(t)
            case Err => ParseWithLimits(der, MAX_DER_DEPTH, maxNodes).Refused?
  {
    var r, l := Parse(der), ParseWithLimits(der, MAX_DER_DEPTH, maxNodes);
    if r.Ok? {
      ParseAccepts(der, r.value);
      ElementCount(r.value, der, 0);
      ParseWithLimitsAccepts(der, MAX_DER_DEPTH, maxNodes, r.value);
    } else if l.Done? {
      ParseWithLimitsAccepts(der, MAX_DER_DEPTH, maxNodes, l.value);
      ParseAccepts(der, l.value);
    }
  }

  /** Raising a limit never loses an accepted input and never changes its tree. */
  lemma LimitsMonotone(der: bytes, depth: int, nodes: int, moreDepth: int, moreNodes: int)
    requires depth <= moreDepth && nodes <= moreNodes
    requires ParseWithLimits(der, depth, nodes).Done?
    ensures ParseWithLimits(der, moreDepth, moreNodes) == ParseWithLimits(der, depth, nodes)
  {
    var t := ParseWithLimits(der, depth, nodes).value;
    ParseWithLimitsAccepts(der, depth, nodes, t);
    ParseWithLimitsAccepts(der, moreDepth, moreNodes, t);
  }

  // ----- the shape of accepted trees -----

  function Offsets(t: Node): seq<nat>
    decreases t, 1
  {
    [t.offset] + AllOffsets(t.children)
  }

  function AllOffsets(ts: seq<Node>): seq<nat>
    decreases ts, 0
  {
    if ts == [] then [] else Offsets(ts[0]) + AllOffsets(ts[1..])
  }

  predicate Rising(s: seq<nat>, lo: nat, hi: nat) {
    (forall i :: 0 <= i < |s| ==> lo <= s[i] < hi) && forall i, j :: 0 <= i < j < |s| ==> s[i] < s[j]
  }

  lemma RisingJoin(a: seq<nat>, b: seq<nat>, lo: nat, mid: nat, hi: nat)
    requires lo <= mid <= hi && Rising(a, lo, mid) && Rising(b, mid, hi)
    ensures Rising(a + b, lo, hi)
  {
  }

  /** Offsets strictly increase in pre-order and stay inside the element. */
  lemma {:induction false} ElementOffsets(t: Node, s: bytes, base: nat)
    requires IsElement(t, s, base)
    ensures Rising(Offsets(t), base, base + ParseHeader(s).value.Extent())
    decreases t, 1
  {
    hide ParseHeader;
    var h := ParseHeader(s).value;
    if h.constructed {
      TilesOffsets(t.children, t.value, base + h.size);
    }
    RisingJoin([t.offset], AllOffsets(t.children), base, base + h.size, base + h.Extent());
  }

  lemma {:induction false} TilesOffsets(ts: seq<Node>, s: bytes, base: nat)
    requires Tiles(ts, s, base)
    ensures Rising(AllOffsets(ts), base, base + |s|)
    decreases ts, 0
  {
    hide ParseHeader;
    if ts != [] {
      var e := ParseHeader(s).value.Extent();
      ElementOffsets(ts[0], s, base);
      TilesOffsets(ts[1..], s[e..], base + e);
      RisingJoin(Offsets(ts[0]), AllOffsets(ts[1..]), base, base + e, base + |s|);
    }
  }

  /** The header octets of a node of `der`, found again at its absolute offset. */
  function HeaderOctets(t: Node, der: bytes): bytes {
    if t.offset <= |der| && ParseHeader(der[t.offset..]).Ok?
    then der[t.offset..][..ParseHeader(der[t.offset..]).value.size]
    else []
  }

  /** Header octets and primitive values in pre-order. */
  function Flatten(t: Node, der: bytes): bytes
    decreases t, 1
  {
    HeaderOctets(t, der) + if t.constructed then FlattenAll(t.children, der) else t.value
  }

  function FlattenAll(ts: seq<Node>, der: bytes): bytes
    decreases ts, 0
  {
    if ts == [] then [] else Flatten(ts[0], der) + FlattenAll(ts[1..], der)
  }

  /** A header that fits a slice is read the same from any longer slice. */
  lemma HeaderExtends(s: bytes, more: bytes)
    requires ParseHeader(s).Ok?
    ensures ParseHeader(s + more) == ParseHeader(s)
  {
    var off := 1;
    if s[0] % 32 == 31 {
      TagEndExtends(s, more, 1);
      off := TagEnd(s, 1).value;
      assert (s + more)[1..off] == s[1..off];
    }
    var a := s[off..];
    assert (s + more)[off..] == a + more;
    assert a[0] >= 128 ==> (a + more)[1..1 + (a[0] - 128)] == a[1..1 + (a[0] - 128)];
    assert ParseLength(a + more) == ParseLength(a);
  }

  lemma {:induction false} TagEndExtends(s: bytes, more: bytes, off: nat)
    requires TagEnd(s, off).Ok?
    ensures TagEnd(s + more, off) == TagEnd(s, off)
    decreases |s| - off
  {
    if s[off] >= 128 {
      TagEndExtends(s, more, off + 1);
    }
  }

  /** `s` is the slice of `der` at `lo`. */
  predicate LiesAt(s: bytes, der: bytes, lo: nat) {
    lo + |s| <= |der| && s == der[lo..lo + |s|]
  }

  lemma PartLiesAt(s: bytes, der: bytes, lo: nat, a: nat, b: nat)
    requires LiesAt(s, der, lo) && a <= b <= |s|
    ensures LiesAt(s[a..b], der, lo + a)
  {
    assert forall i :: 0 <= i < b - a ==> s[a..b][i] == der[lo + a + i];
  }

  lemma HeaderOctetsAt(t: Node, s: bytes, der: bytes)
    requires LiesAt(s, der, t.offset) && ParseHeader(s).Ok?
    ensures HeaderOctets(t, der) == s[..ParseHeader(s).value.size]
  {
    var more := der[t.offset + |s|..];
    HeaderExtends(s, more);
    assert der[t.offset..] == s + more;
  }

  lemma {:induction false} ElementFlatten(t: Node, s: bytes, der: bytes)
    requires IsElement(t, s, t.offset) && LiesAt(s, der, t.offset)
    ensures Flatten(t, der) == s[..ParseHeader(s).value.Extent()]
    decreases t, 1
  {
    hide ParseHeader;
    var h := ParseHeader(s).value;
    HeaderOctetsAt(t, s, der);
    if h.constructed {
      PartLiesAt(s, der, t.offset, h.size, h.Extent());
      TilesFlatten(t.children, t.value, der, t.offset + h.size);
    }
    FrontAndMiddle(s, h.size, h.Extent());
  }

  lemma FrontAndMiddle(s: bytes, a: nat, b: nat)
    requires a <= b <= |s|
    ensures s[..a] + s[a..b] == s[..b] && s[..b] + s[b..] == s
  {
  }

  lemma {:induction false} TilesFlatten(ts: seq<Node>, s: bytes, der: bytes, lo: nat)
    requires Tiles(ts, s, lo) && LiesAt(s, der, lo)
    ensures FlattenAll(ts, der) == s
    decreases ts, 0
  {
    hide ParseHeader;
    if ts != [] {
      var e := ParseHeader(s).value.Extent();
      ElementFlatten(ts[0], s, der);
      PartLiesAt(s, der, lo, e, |s|);
      assert s[e..|s|] == s[e..];
      TilesFlatten(ts[1..], s[e..], der, lo + e);
      FrontAndMiddle(s, 0, e);
    }
  }

  /** In the tree of a document offsets rise in pre-order, and header octets with primitive values rebuild it. */
  lemma DocumentShape(der: bytes, t: Node)
    requires IsDocument(t, der)
    ensures Rising(Offsets(t), 0, |der|)
    ensures Flatten(t, der) == der
  {
    ElementOffsets(t, der, 0);
    ElementFlatten(t, der, der);
  }

  /** So it is in every tree `Parse` returns. */
  lemma ParsedShape(der: bytes)
    requires Parse(der).Ok?
    ensures Rising(Offsets(Parse(der).value), 0, |der|)
    ensures Flatten(Parse(der).value, der) == der
  {
    ParseAccepts(der, Parse(der).value);
    DocumentShape(der, Parse(der).value);
  }

  /** And in every tree `ParseWithLimits` returns. */
  lemma LimitedShape(der: bytes, maxDepth: int, maxNodes: int)
    requires ParseWithLimits(der, maxDepth, maxNodes).Done?
    ensures var t := ParseWithLimits(der, maxDepth, maxNodes).value;
            Rising(Offsets(t), 0, |der|) && Flatten(t, der) == der
  {
    var t := ParseWithLimits(der, maxDepth, maxNodes).value;
    ParseWithLimitsAccepts(der, maxDepth, maxNodes, t);
    DocumentShape(der, t);
  }
}
