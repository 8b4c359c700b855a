/**
 The two DER tree parsers as the library runs them: nodes are heap objects whose `children` grow
 by appending, the recursive parser walks a cursor over the value, and the iterative one keeps an
 explicit stack of frames. Both are proved to build the tree their value-level function gives.
 */
module Asn1Parsers {
  import opened Results
  import opened Octets
  import opened Asn1Grammar

  class TreeNode {
    const offset: nat
    const header: Header
    const value: bytes
    var children: seq<TreeNode>

    constructor (offset: nat, header: Header, value: bytes)
      ensures this.offset == offset && this.header == header && this.value == value && children == []
    {
      this.offset := offset;
      this.header := header;
      this.value := value;
      children := [];
    }

    /** The node's own fields, apart from its children. */
    function Alone(): Node {
      Node(offset, header.tag, header.tagClass, header.number, header.constructed, header.length, value, [])
    }
  }

  /** The objects below and including `n`, all of them in `region`, form the tree `t`. */
  ghost predicate Represents(n: TreeNode, t: Node, region: set<TreeNode>)
    reads region
    decreases t
  {
    n in region
    && n.Alone() == t.(children := [])
    && |n.children| == |t.children|
    && forall i :: 0 <= i < |t.children| ==> Represents(n.children[i], t.children[i], region)
  }

  /** Which tree each finished object forms. */
  type Shapes = map<TreeNode, Node>

  ghost predicate Matches(n: TreeNode, t: Node, shapes: Shapes)
    reads n
  {
    n.Alone() == t.(children := []) && Finished(n, t.children, shapes) && |n.children| == |t.children|
  }

  ghost predicate Consistent(shapes: Shapes)
    reads shapes.Keys
  {
    forall n :: n in shapes ==> Matches(n, shapes[n], shapes)
  }

  /** The first children of `n` are finished and form the trees `ts`. */
  ghost predicate Finished(n: TreeNode, ts: seq<Node>, shapes: Shapes)
    reads n
  {
    |ts| <= |n.children|
    && forall i :: 0 <= i < |ts| ==> n.children[i] in shapes && shapes[n.children[i]] == ts[i]
  }

  lemma {:induction false} ConsistentRepresents(n: TreeNode, shapes: Shapes)
    requires Consistent(shapes) && n in shapes
    ensures Represents(n, shapes[n], shapes.Keys)
    decreases shapes[n]
  {
    var t := shapes[n];
    assert Matches(n, t, shapes);
    forall i | 0 <= i < |t.children| ensures Represents(n.children[i], t.children[i], shapes.Keys) {
      ConsistentRepresents(n.children[i], shapes);
    }
  }

  lemma ConsistentJoin(a: Shapes, b: Shapes)
    requires Consistent(a) && Consistent(b) && a.Keys !! b.Keys
    ensures Consistent(a + b)
  {
    forall n | n in a + b ensures Matches(n, (a + b)[n], a + b) {
      assert n in a ==> Matches(n, a[n], a);
      assert n in b ==> Matches(n, b[n], b);
    }
  }

  lemma ConsistentAdd(n: TreeNode, ts: seq<Node>, shapes: Shapes)
    requires Consistent(shapes) && n !in shapes && Finished(n, ts, shapes) && |n.children| == |ts|
    ensures Consistent(shapes[n := n.Alone().(children := ts)])
  {
    var more := shapes[n := n.Alone().(children := ts)];
    forall m | m in more ensures Matches(m, more[m], more) {
      assert m in shapes ==> Matches(m, shapes[m], shapes);
    }
  }

  // ----- headers -----

  method ReadLength(b: bytes) returns (r: Result<Run>)
    ensures r == ParseLength(b)
  {
    if |b| == 0 {
      return Err;
    }
    if b[0] < 128 {
      return Ok(Run(b[0], 1));
    }
    var n := b[0] - 128;
    if n == 0 {
      return Err;
    }
    if n > 4 || 1 + n > |b| {
      return Err;
    }
    var length: nat := 0;
    for i := 0 to n
      invariant length == BigEndian(b[1..1 + i])
    {
      assert b[1..1 + i + 1] == b[1..1 + i] + [b[1 + i]];
      BigEndianSnoc(b[1..1 + i], b[1 + i]);
      length := length * 256 + b[1 + i];
    }
    return Ok(Run(length, 1 + n));
  }

  /** The loop over the groups of a high tag number. */
  method ReadHighTag(der: bytes) returns (r: Result<Run>)
    requires |der| >= 1
    ensures match TagEnd(der, 1)
            case Err => r.Err?
            case Ok(off) => r == Ok(Run(TagNumber(der[1..off]), off))
  {
    hide WrapInt64;
    var number: int64 := 0;
    var off := 1;
    assert der[1..1] == [];
    while off < |der|
      invariant 1 <= off <= |der|
      invariant number == TagNumber(der[1..off])
      invariant TagEnd(der, off) == TagEnd(der, 1)
    {
      var b := der[off];
      TagNumberStep(der, off);
      off := off + 1;
      number := WrapInt64(number * 128 + b % 128);
      if b < 128 {
        return Ok(Run(number, off));
      }
    }
    return Err;
  }

  lemma TagNumberStep(der: bytes, off: nat)
    requires 1 <= off < |der|
    ensures TagNumber(der[1..off + 1]) == WrapInt64(TagNumber(der[1..off]) * 128 + der[off] % 128)
  {
    hide WrapInt64;
    assert der[1..off + 1][..off - 1] == der[1..off];
  }

  method ReadHeader(der: bytes, base: nat) returns (r: Result<(TreeNode, nat)>)
    ensures match ParseHeader(der)
            case Err => r.Err?
            case Ok(h) => r.Ok? && r.value.1 == h.Extent() && fresh(r.value.0)
                          && r.value.0.header == h && r.value.0.children == []
                          && r.value.0.Alone() == Leaf(der, base, h)
  {
    if |der| == 0 {
      return Err;
    }
    var number, off := der[0] % 32, 1;
    var tagNumber: int64 := number;
    if number == 31 {
      var high := ReadHighTag(der);
      if high.Err? {
        return Err;
      }
      tagNumber, off := high.value.value, high.value.used;
    }
    var length := ReadLength(der[off..]);
    if length.Err? {
      return Err;
    }
    off := off + length.value.used;
    if length.value.value < 0 || length.value.value > |der| - off {
      return Err;
    }
    var h := Header(der[0], der[0] / 64, tagNumber, der[0] / 32 % 2 == 1, off, length.value.value);
    var node := new TreeNode(base, h, der[off..off + h.length]);
    return Ok((node, off + h.length));
  }

  // ----- the recursive parser -----

  method ReadNode(der: bytes, base: nat, depth: int)
    returns (r: Result<(TreeNode, nat)>, ghost shapes: Shapes)
    ensures fresh(shapes.Keys) && Consistent(shapes)
    ensures match Asn1Grammar.ParseNode(der, base, depth)
            case Err => r.Err?
            case Ok(p) => r.Ok? && r.value.1 == p.used && r.value.0 in shapes && shapes[r.value.0] == p.node
    decreases |der|, 0
  {
    shapes := map[];
    var header := ReadHeader(der, base);
    if header.Err? {
      return Err, shapes;
    }
    var node, used := header.value.0, header.value.1;
    var length := node.header.length;
    var off := used - length;
    ghost var ts: seq<Node> := [];
    if node.header.constructed {
      if depth <= 0 {
        return Err, shapes;
      }
      var ok;
      ok, shapes := ReadChildren(node, node.value, base + off, depth - 1);
      if !ok {
        return Err, map[];
      }
      ts := ParseForest(node.value, base + off, depth - 1).value;
    }
    ConsistentAdd(node, ts, shapes);
    shapes := shapes[node := node.Alone().(children := ts)];
    return Ok((node, off + length)), shapes;
  }

  /** The loop of the recursive parser: `at` is the absolute position of the value. */
  method ReadChildren(node: TreeNode, value: bytes, at: nat, depth: int) returns (ok: bool, ghost shapes: Shapes)
    requires node.children == []
    modifies node
    ensures fresh(shapes.Keys) && Consistent(shapes)
    ensures match ParseForest(value, at, depth)
            case Err => !ok
            case Ok(ts) => ok && |node.children| == |ts| && Finished(node, ts, shapes)
    decreases |value|, 2
  {
    shapes := map[];
    ghost var ts: seq<Node> := [];
    var cur := 0;
    ForestStart(value, at, depth);
    while cur < |value|
      invariant cur <= |value|
      invariant fresh(shapes.Keys) && Consistent(shapes)
      invariant |node.children| == |ts| && Finished(node, ts, shapes)
      invariant ForestFrom(value, at, depth, ts, cur)
    {
      var more, used;
      more, used, ts, shapes := ReadChild(node, value, at, depth, cur, ts, shapes);
      if !more {
        return false, map[];
      }
      cur := cur + used;
    }
    ForestEnd(value, at, depth, ts);
    return true, shapes;
  }

  /** One turn of that loop. */
  method ReadChild(node: TreeNode, value: bytes, at: nat, depth: int, cur: nat,
                   ghost ts: seq<Node>, ghost shapes: Shapes)
    returns (ok: bool, used: nat, ghost ts': seq<Node>, ghost shapes': Shapes)
    requires cur < |value| && node !in shapes && Consistent(shapes)
    requires |node.children| == |ts| && Finished(node, ts, shapes)
    requires ForestFrom(value, at, depth, ts, cur)
    modifies node
    ensures if !ok then ParseForest(value, at, depth).Err?
            else
              0 < used <= |value| - cur
              && fresh(shapes'.Keys - shapes.Keys) && Consistent(shapes')
              && |node.children| == |ts'| && Finished(node, ts', shapes')
              && ForestFrom(value, at, depth, ts', cur + used)
    decreases |value|, 1
  {
    hide *;
    used, ts', shapes' := 0, [], map[];
    ForestStep(value, at, depth, ts, cur);
    var child, below := ReadNode(value[cur..], at + cur, depth);
    ok := child.Ok?;
    if ok {
      shapes' := Attach(node, child.value.0, ts, shapes, below);
      ts' := ts + [below[child.value.0]];
      used := child.value.1;
    }
  }

  /** Append a finished child to a node whose children so far form `ts`. */
  method Attach(node: TreeNode, child: TreeNode, ghost ts: seq<Node>, ghost shapes: Shapes, ghost below: Shapes)
    returns (ghost joined: Shapes)
    requires Consistent(shapes) && Consistent(below) && shapes.Keys !! below.Keys
    requires node !in shapes && node !in below && child in below
    requires |node.children| == |ts| && Finished(node, ts, shapes)
    modifies node
    ensures node.children == old(node.children) + [child]
    ensures joined.Keys == shapes.Keys + below.Keys && Consistent(joined)
    ensures Finished(node, ts + [below[child]], joined)
  {
    joined := shapes + below;
    ConsistentJoin(shapes, below);
    node.children := node.children + [child];
  }

  /** The forest of `value` is `ts` followed by what stands from `cur` on. */
  ghost predicate ForestFrom(value: bytes, at: nat, depth: int, ts: seq<Node>, cur: nat)
    requires cur <= |value|
  {
    ParseForest(value, at, depth) == Prepend(ts, ParseForest(value[cur..], at + cur, depth))
  }

  lemma ForestStart(value: bytes, at: nat, depth: int)
    ensures ForestFrom(value, at, depth, [], 0)
  {
    assert value[0..] == value;
    PrependNone(ParseForest(value, at, depth));
  }

  lemma ForestEnd(value: bytes, at: nat, depth: int, ts: seq<Node>)
    requires ForestFrom(value, at, depth, ts, |value|)
    ensures ParseForest(value, at, depth) == Ok(ts)
  {
    assert value[|value|..] == [] && ts + [] == ts;
  }

  lemma ForestStep(value: bytes, at: nat, depth: int, ts: seq<Node>, cur: nat)
    requires cur < |value| && ForestFrom(value, at, depth, ts, cur)
    ensures match Asn1Grammar.ParseNode(value[cur..], at + cur, depth)
            case Err => ParseForest(value, at, depth).Err?
            case Ok(p) => ForestFrom(value, at, depth, ts + [p.node], cur + p.used)
  {
    hide ParseHeader, ParseForest, Asn1Grammar.ParseNode;
    var rest := value[cur..];
    ForestOpened(rest, at + cur, depth);
    var parsed := Asn1Grammar.ParseNode(rest, at + cur, depth);
    if parsed.Ok? {
      var t, next := parsed.value.node, cur + parsed.value.used;
      assert rest[parsed.value.used..] == value[next..];
      PrependOne(ts, t, ParseForest(value[next..], at + next, depth));
    }
  }

  lemma ForestOpened(s: bytes, base: nat, depth: int)
    requires s != []
    ensures ParseForest(s, base, depth) ==
            match Asn1Grammar.ParseNode(s, base, depth)
            case Err => Err
            case Ok(p) =>
              var after := ParseForest(s[p.used..], base + p.used, depth);
              if after.Ok? then Ok([p.node] + after.value) else Err
  {
    hide ParseHeader, Asn1Grammar.ParseNode;
  }

  method ReadDocument(der: bytes) returns (r: Result<TreeNode>, ghost region: set<TreeNode>)
    ensures fresh(region)
    ensures match Asn1Grammar.Parse(der)
            case Err => r.Err?
            case Ok(t) => r.Ok? && Represents(r.value, t, region)
  {
    region := {};
    if |der| == 0 {
      return Err, region;
    }
    var n, shapes := ReadNode(der, 0, MAX_DER_DEPTH);
    if n.Err? {
      return Err, region;
    }
    if n.value.1 != |der| {
      return Err, region;
    }
    ConsistentRepresents(n.value.0, shapes);
    return Ok(n.value.0), shapes.Keys;
  }

  // ----- the parser with an explicit stack -----

  datatype Frame = Frame(node: TreeNode, cursor: nat, end: nat, depth: nat)

  /** What a frame means: the node's own fields, the children finished so far and where the next starts. */
  datatype Pending = Pending(leaf: Node, trees: seq<Node>, cursor: nat, end: nat, layer: nat)

  predicate InRange(p: Pending, der: bytes) {
    p.cursor <= p.end <= |der|
  }

  predicate AllInRange(ps: seq<Pending>, der: bytes) {
    forall i :: 0 <= i < |ps| ==> InRange(ps[i], der)
  }

  /** The children the top frame still has to read. */
  function Remaining(p: Pending, der: bytes, lim: Limits, count: nat): Outcome<Forest>
    requires InRange(p, der)
  {
    LimitChildren(p.leaf.constructed, der[p.cursor..p.end], p.cursor, p.layer, lim, count)
  }

  function AddTree(p: Pending, t: Node): Pending {
    p.(trees := p.trees + [t])
  }

  /** The tree the loop will return from this stack: finish the top frame, hand it to its parent, go on. */
  function Resume(ps: seq<Pending>, der: bytes, lim: Limits, count: nat): Outcome<Node>
    requires |ps| >= 1 && AllInRange(ps, der)
    decreases |ps|
  {
    var top := ps[|ps| - 1];
    var below :- Remaining(top, der, lim, count);
    var t := top.leaf.(children := top.trees + below.trees);
    if |ps| == 1 then Done(t)
    else
      var parent := AddTree(ps[|ps| - 2], t);
      Resume(ps[..|ps| - 2] + [parent], der, lim, below.count)
  }

  function Under(ps: seq<Pending>): seq<Pending>
    requires |ps| >= 1
  {
    ps[..|ps| - 1]
  }

  function Top(ps: seq<Pending>): Pending
    requires |ps| >= 1
  {
    ps[|ps| - 1]
  }

  /** What is returned once the top frame is the finished tree `t`. */
  function HandUp(under: seq<Pending>, t: Node, der: bytes, lim: Limits, count: nat): Outcome<Node>
    requires AllInRange(under, der)
  {
    if under == [] then Done(t) else Resume(Under(under) + [AddTree(Top(under), t)], der, lim, count)
  }

  lemma ResumeIs(ps: seq<Pending>, der: bytes, lim: Limits, count: nat)
    requires |ps| >= 1 && AllInRange(ps, der)
    ensures var below := Remaining(Top(ps), der, lim, count);
            Resume(ps, der, lim, count) ==
            if below.Refused? then Refused(below.error)
            else HandUp(Under(ps), Top(ps).leaf.(children := Top(ps).trees + below.value.trees),
                        der, lim, below.value.count)
  {
    if |ps| >= 2 {
      assert Under(Under(ps)) == ps[..|ps| - 2] && Top(Under(ps)) == ps[|ps| - 2];
    }
  }

  /** Popping a finished frame. */
  lemma ResumePop(ps: seq<Pending>, der: bytes, lim: Limits, count: nat)
    requires |ps| >= 1 && AllInRange(ps, der)
    requires Remaining(Top(ps), der, lim, count) == Done(Forest([], count))
    ensures Resume(ps, der, lim, count)
            == HandUp(Under(ps), Top(ps).leaf.(children := Top(ps).trees), der, lim, count)
  {
    ResumeIs(ps, der, lim, count);
    assert Top(ps).trees + [] == Top(ps).trees;
  }

  /** The frame of the child whose header is next in frame `p`, and `p` with its cursor behind that child. */
  function ChildOf(p: Pending, der: bytes, h: Header): Pending
    requires InRange(p, der) && p.cursor + h.Extent() <= p.end
  {
    var at := p.cursor;
    Pending(Leaf(der[at..p.end], at, h), [], at + h.size, at + h.Extent(), p.layer + 1)
  }

  function Past(p: Pending, h: Header): Pending {
    p.(cursor := p.cursor + h.Extent())
  }

  lemma SliceOfSlice(der: bytes, lo: nat, hi: nat, a: nat, b: nat)
    requires lo <= hi <= |der| && a <= b <= hi - lo
    ensures der[lo..hi][a..b] == der[lo + a..lo + b]
  {
    assert forall i :: 0 <= i < b - a ==> der[lo..hi][a..b][i] == der[lo + a + i];
  }

  lemma RemainingStep(p: Pending, der: bytes, lim: Limits, count: nat, h: Header)
    requires InRange(p, der) && p.leaf.constructed && p.layer < lim.depth && p.cursor < p.end && count < lim.nodes
    requires ParseHeader(der[p.cursor..p.end]) == Ok(h)
    ensures var child := ChildOf(p, der, h);
            var below := Remaining(child, der, lim, count + 1);
            Remaining(p, der, lim, count) ==
            if below.Refused? then Refused(below.error)
            else
              var after := Remaining(Past(p, h), der, lim, below.value.count);
              if after.Refused? then Refused(after.error)
              else Done(Forest([child.leaf.(children := below.value.trees)] + after.value.trees, after.value.count))
  {
    hide ParseHeader;
    var s := der[p.cursor..p.end];
    SliceOfSlice(der, p.cursor, p.end, h.Extent(), |s|);
    assert s[h.Extent()..] == s[h.Extent()..|s|];
    SliceOfSlice(der, p.cursor, p.end, h.size, h.Extent());
    LimitForestOpened(s, p.cursor, p.layer, lim, count, h);
  }

  lemma LimitForestOpened(s: bytes, base: nat, layer: nat, lim: Limits, count: nat, h: Header)
    requires s != [] && count < lim.nodes && ParseHeader(s) == Ok(h)
    ensures var leaf := Leaf(s, base, h);
            var below := LimitChildren(h.constructed, leaf.value, base + h.size, layer + 1, lim, count + 1);
            LimitForest(s, base, layer, lim, count) ==
            if below.Refused? then Refused(below.error)
            else
              var after := LimitForest(s[h.Extent()..], base + h.Extent(), layer, lim, below.value.count);
              if after.Refused? then Refused(after.error)
              else Done(Forest([leaf.(children := below.value.trees)] + after.value.trees, after.value.count))
  {
    hide ParseHeader, LimitChildren;
  }

  /** Reading one child header moves the cursor past the child and pushes the child's frame. */
  lemma ResumePush(ps: seq<Pending>, der: bytes, lim: Limits, count: nat, h: Header)
    requires |ps| >= 1 && AllInRange(ps, der)
    requires var top := Top(ps);
             top.leaf.constructed && top.layer < lim.depth && top.cursor < top.end && count < lim.nodes
             && ParseHeader(der[top.cursor..top.end]) == Ok(h)
    ensures var pushed := Under(ps) + [Past(Top(ps), h), ChildOf(Top(ps), der, h)];
            AllInRange(pushed, der) && Resume(ps, der, lim, count) == Resume(pushed, der, lim, count + 1)
  {
    hide ParseHeader, LimitChildren;
    var top := Top(ps);
    var child := ChildOf(top, der, h);
    var moved := Past(top, h);
    var pushed := Under(ps) + [moved, child];
    RemainingStep(top, der, lim, count, h);
    ResumeIs(ps, der, lim, count);
    ResumeIs(pushed, der, lim, count + 1);
    assert Top(pushed) == child && Under(pushed) == Under(ps) + [moved];
    var below := Remaining(child, der, lim, count + 1);
    if below.Done? {
      var t := child.leaf.(children := below.value.trees);
      assert [] + below.value.trees == below.value.trees;
      var next := Under(ps) + [AddTree(moved, t)];
      assert Under(Under(pushed)) == Under(ps) && Top(Under(pushed)) == moved;
      ResumeIs(next, der, lim, below.value.count);
      assert Under(next) == Under(ps) && Top(next) == AddTree(moved, t);
      var after := Remaining(moved, der, lim, below.value.count);
      if after.Done? {
        assert top.trees + ([t] + after.value.trees) == (top.trees + [t]) + after.value.trees;
      }
    }
  }

  /** Frame `f` stands for `p`; `open` tells whether its last child is still on the stack. */
  ghost predicate FrameShows(f: Frame, p: Pending, shapes: Shapes, open: bool)
    reads f.node
  {
    f.node !in shapes
    && f.node.Alone() == p.leaf && f.cursor == p.cursor && f.end == p.end && f.depth == p.layer
    && Finished(f.node, p.trees, shapes)
    && |f.node.children| == |p.trees| + if open then 1 else 0
  }

  /**
   Every frame stands for its pending entry, and each frame's node is the last child of the one
   below. `live` holds all nodes made so far.
   */
  ghost predicate StackShows(stack: seq<Frame>, ps: seq<Pending>, shapes: Shapes, live: set<TreeNode>)
    reads live
  {
    |stack| == |ps|
    && (forall i :: 0 <= i < |stack| ==> stack[i].node in live && FrameShows(stack[i], ps[i], shapes, i + 1 < |stack|))
    && (forall i :: 0 <= i < |stack| - 1 ==> stack[i].node.children[|ps[i].trees|] == stack[i + 1].node)
    && (forall i, j :: 0 <= i < j < |stack| ==> stack[i].node != stack[j].node)
  }

  function PopPending(ps: seq<Pending>, t: Node): seq<Pending>
    requires |ps| >= 1
  {
    if |ps| == 1 then [] else Under(Under(ps)) + [AddTree(Top(Under(ps)), t)]
  }

  /** Dropping a finished frame makes its node a finished child of the frame below. */
  lemma PopShows(stack: seq<Frame>, ps: seq<Pending>, shapes: Shapes, live: set<TreeNode>, t: Node)
    requires |stack| >= 1 && StackShows(stack, ps, shapes, live) && Consistent(shapes)
    requires t == Top(ps).leaf.(children := Top(ps).trees)
    ensures var more := shapes[stack[|stack| - 1].node := t];
            Consistent(more) && StackShows(stack[..|stack| - 1], PopPending(ps, t), more, live)
  {
    var k := |stack| - 1;
    var n := stack[k].node;
    var more := shapes[n := t];
    var rest, qs := stack[..k], PopPending(ps, t);
    assert FrameShows(stack[k], ps[k], shapes, false);
    ConsistentAdd(n, ps[k].trees, shapes);
    assert |rest| == |qs|;
    forall i | 0 <= i < |rest|
      ensures FrameShows(rest[i], qs[i], more, i + 1 < |rest|)
    {
      assert FrameShows(stack[i], ps[i], shapes, true);
    }
  }

  lemma PopStep(ps: seq<Pending>, t: Node, der: bytes, lim: Limits, count: nat)
    requires |ps| >= 1 && AllInRange(ps, der)
    requires Remaining(Top(ps), der, lim, count) == Done(Forest([], count))
    requires t == Top(ps).leaf.(children := Top(ps).trees)
    ensures var qs := PopPending(ps, t);
            AllInRange(qs, der)
            && if qs == [] then Resume(ps, der, lim, count) == Done(t)
               else Resume(ps, der, lim, count) == Resume(qs, der, lim, count)
  {
    hide ParseHeader, LimitChildren;
    ResumePop(ps, der, lim, count);
  }

  /** Popping a frame with nothing left to read. */
  method PopFrame(stack: seq<Frame>, ghost ps: seq<Pending>, ghost shapes: Shapes, ghost live: set<TreeNode>,
                  ghost der: bytes, ghost lim: Limits, ghost count: nat)
    returns (popped: seq<Frame>, ghost qs: seq<Pending>, ghost more: Shapes)
    requires |stack| >= 1 && StackShows(stack, ps, shapes, live) && Consistent(shapes) && shapes.Keys <= live
    requires AllInRange(ps, der) && Remaining(Top(ps), der, lim, count) == Done(Forest([], count))
    ensures popped == stack[..|stack| - 1]
    ensures Consistent(more) && more.Keys <= live
    ensures StackShows(popped, qs, more, live) && AllInRange(qs, der)
    ensures if popped == [] then stack[0].node in more && Resume(ps, der, lim, count) == Done(more[stack[0].node])
            else Resume(ps, der, lim, count) == Resume(qs, der, lim, count)
  {
    ghost var t := Top(ps).leaf.(children := Top(ps).trees);
    PopShows(stack, ps, shapes, live, t);
    PopStep(ps, t, der, lim, count);
    popped := stack[..|stack| - 1];
    qs, more := PopPending(ps, t), shapes[stack[|stack| - 1].node := t];
  }

  /** What the loop's tests on the top frame mean for the result. */
  lemma RemainingCases(ps: seq<Pending>, der: bytes, lim: Limits, count: nat)
    requires |ps| >= 1 && AllInRange(ps, der)
    ensures Top(ps).cursor <= Top(ps).end <= |der|
    ensures var p := Top(ps);
            var r := Resume(ps, der, lim, count);
            if !p.leaf.constructed then Remaining(p, der, lim, count) == Done(Forest([], count))
            else if p.layer >= lim.depth then r == Refused(DepthExceeded)
            else if p.cursor == p.end then Remaining(p, der, lim, count) == Done(Forest([], count))
            else if count >= lim.nodes then r == Refused(NodesExceeded)
            else ParseHeader(der[p.cursor..p.end]).Err? ==> r == Refused(Malformed)
  {
    hide ParseHeader, LimitChildren, LimitForest, Resume;
    var p := Top(ps);
    var s := der[p.cursor..p.end];
    assert p.cursor == p.end <==> s == [];
    ResumeIs(ps, der, lim, count);
    ChildrenCases(p.leaf.constructed, s, p.cursor, p.layer, lim, count);
  }

  lemma ChildrenCases(constructed: bool, s: bytes, base: nat, layer: nat, lim: Limits, count: nat)
    ensures var o := LimitChildren(constructed, s, base, layer, lim, count);
            if !constructed then o == Done(Forest([], count))
            else if layer >= lim.depth then o == Refused(DepthExceeded)
            else if s == [] then o == Done(Forest([], count))
            else if count >= lim.nodes then o == Refused(NodesExceeded)
            else ParseHeader(s).Err? ==> o == Refused(Malformed)
  {
    hide ParseHeader;
    if constructed && layer < lim.depth {
      assert LimitChildren(constructed, s, base, layer, lim, count) == LimitForest(s, base, layer, lim, count);
    }
  }

  /** The stack the loop starts with. */
  lemma StartStep(der: bytes, lim: Limits, h: Header)
    requires ParseHeader(der) == Ok(h) && h.Extent() == |der| && lim.depth > 0 && lim.nodes > 0
    ensures var ps := [Pending(Leaf(der, 0, h), [], h.size, |der|, 0)];
            AllInRange(ps, der) && Resume(ps, der, lim, 1) == ParseWithLimits(der, lim.depth, lim.nodes)
  {
    hide ParseHeader, LimitChildren;
    var ps := [Pending(Leaf(der, 0, h), [], h.size, |der|, 0)];
    ResumeIs(ps, der, lim, 1);
    var below := Remaining(ps[0], der, lim, 1);
    if below.Done? {
      assert [] + below.value.trees == below.value.trees;
    }
  }

  /** Attach the child to the top frame's node, move that frame's cursor past it and push its frame. */
  method PushChild(stack: seq<Frame>, child: TreeNode, size: nat,
                   ghost ps: seq<Pending>, ghost shapes: Shapes, ghost live: set<TreeNode>, ghost der: bytes)
    returns (pushed: seq<Frame>)
    requires |stack| >= 1 && StackShows(stack, ps, shapes, live) && Consistent(shapes) && AllInRange(ps, der)
    requires child !in shapes && child !in live && child.children == []
    requires size == child.header.Extent() && Top(ps).cursor + size <= Top(ps).end
    requires child.Alone() == Leaf(der[Top(ps).cursor..Top(ps).end], Top(ps).cursor, child.header)
    modifies stack[|stack| - 1].node
    ensures Consistent(shapes)
    ensures StackShows(pushed, Under(ps) + [Past(Top(ps), child.header), ChildOf(Top(ps), der, child.header)],
                       shapes, live + {child})
    ensures |pushed| == |stack| + 1 && pushed[0].node == stack[0].node
    ensures forall i :: 0 <= i < |stack| ==> pushed[i].depth == stack[i].depth
    ensures pushed[|stack|].depth == stack[|stack| - 1].depth + 1
  {
    hide ParseHeader, Leaf, Consistent;
    var k := |stack| - 1;
    var f := stack[k];
    ghost var qs := Under(ps) + [Past(Top(ps), child.header), ChildOf(Top(ps), der, child.header)];
    assert FrameShows(f, ps[k], shapes, false);
    var at, depth := f.cursor, f.depth + 1;
    f.node.children := f.node.children + [child];
    pushed := stack[..k] + [f.(cursor := f.cursor + size),
                            Frame(child, at + size - child.header.length, at + size, depth)];
    assert f.node !in shapes;
    forall i | 0 <= i < |pushed|
      ensures FrameShows(pushed[i], qs[i], shapes, i + 1 < |pushed|)
    {
      assert i < k ==> FrameShows(stack[i], ps[i], shapes, true);
    }
  }

  /** Read the next child header of the top frame. */
  method PushNext(stack: seq<Frame>, der: bytes, ghost ps: seq<Pending>, ghost shapes: Shapes,
                  ghost live: set<TreeNode>, ghost lim: Limits, ghost count: nat)
    returns (ok: bool, pushed: seq<Frame>, ghost qs: seq<Pending>, ghost live': set<TreeNode>)
    requires |stack| >= 1 && StackShows(stack, ps, shapes, live) && Consistent(shapes) && AllInRange(ps, der)
    requires shapes.Keys <= live
    requires Top(ps).leaf.constructed && Top(ps).layer < lim.depth && Top(ps).cursor < Top(ps).end && count < lim.nodes
    modifies stack[|stack| - 1].node
    ensures ok <==> ParseHeader(der[Top(ps).cursor..Top(ps).end]).Ok?
    ensures Consistent(shapes)
    ensures ok ==>
              live <= live' && fresh(live' - live)
              && |qs| == |stack| + 1 && AllInRange(qs, der) && StackShows(pushed, qs, shapes, live')
              && Resume(ps, der, lim, count) == Resume(qs, der, lim, count + 1)
              && |pushed| == |stack| + 1 && pushed[0].node == stack[0].node
              && (forall i :: 0 <= i < |stack| ==> pushed[i].depth == stack[i].depth)
              && pushed[|stack|].depth == stack[|stack| - 1].depth + 1
  {
    hide ParseHeader, Resume, LimitChildren;
    var f := stack[|stack| - 1];
    assert FrameShows(f, Top(ps), shapes, false);
    var child := ReadHeader(der[f.cursor..f.end], f.cursor);
    ok, pushed, qs, live' := child.Ok?, [], [], {};
    if ok {
      ghost var h := child.value.0.header;
      ResumePush(ps, der, lim, count, h);
      pushed := PushChild(stack, child.value.0, child.value.1, ps, shapes, live, der);
      qs := Under(ps) + [Past(Top(ps), h), ChildOf(Top(ps), der, h)];
      live' := live + {child.value.0};
    }
  }

  lemma TopShows(stack: seq<Frame>, ps: seq<Pending>, shapes: Shapes, live: set<TreeNode>)
    requires |stack| >= 1 && StackShows(stack, ps, shapes, live)
    ensures var f := stack[|stack| - 1];
            |ps| == |stack| && f.node in live
            && f.node.header.constructed == Top(ps).leaf.constructed
            && f.cursor == Top(ps).cursor && f.end == Top(ps).end && f.depth == Top(ps).layer
  {
    assert FrameShows(stack[|stack| - 1], Top(ps), shapes, false);
  }

  /** What holds between two turns of the loop; `goal` is what the whole call returns. */
  ghost predicate LoopInvariant(root: TreeNode, stack: seq<Frame>, ps: seq<Pending>, shapes: Shapes,
                                live: set<TreeNode>, der: bytes, lim: Limits, count: nat, goal: Outcome<Node>)
    reads live, shapes.Keys
  {
    StackShows(stack, ps, shapes, live) && AllInRange(ps, der)
    && Consistent(shapes) && shapes.Keys <= live
    && (if |stack| > 0 then stack[0].node == root && |ps| > 0 && Resume(ps, der, lim, count) == goal
        else root in shapes && goal == Done(shapes[root]))
    && (forall i :: 0 <= i < |stack| ==> stack[i].depth == i)
    && count <= lim.nodes && |stack| <= lim.depth + 1
  }

  /** One turn: a turn that does not stop either pops a frame or spends a node. */
  method Turn(ghost root: TreeNode, stack: seq<Frame>, der: bytes, lim: Limits, count: nat,
              ghost ps: seq<Pending>, ghost shapes: Shapes, ghost live: set<TreeNode>, ghost goal: Outcome<Node>)
    returns (error: Option<LimitError>, stack': seq<Frame>, count': nat,
             ghost ps': seq<Pending>, ghost shapes': Shapes, ghost live': set<TreeNode>)
    requires |stack| > 0 && LoopInvariant(root, stack, ps, shapes, live, der, lim, count, goal)
    modifies live
    ensures match error
            case Some(e) => goal == Refused(e)
            case None =>
              LoopInvariant(root, stack', ps', shapes', live', der, lim, count', goal)
              && live <= live' && fresh(live' - live) && |stack'| <= lim.depth + 1
              && ((count' == count && |stack'| == |stack| - 1) || (count' == count + 1 && |stack'| == |stack| + 1))
  {
    hide Resume, Remaining, StackShows, Consistent, ParseHeader, AllInRange;
    error, stack', count', ps', shapes', live' := None, stack, count, ps, shapes, live;
    var f := stack[|stack| - 1];
    TopShows(stack, ps, shapes, live);
    RemainingCases(ps, der, lim, count);
    if !f.node.header.constructed {
      stack', ps', shapes' := PopFrame(stack, ps, shapes, live, der, lim, count);
    } else if f.depth >= lim.depth {
      error := Some(DepthExceeded);
    } else if f.cursor == f.end {
      stack', ps', shapes' := PopFrame(stack, ps, shapes, live, der, lim, count);
    } else if count >= lim.nodes {
      error := Some(NodesExceeded);
    } else {
      var ok;
      ok, stack', ps', live' := PushNext(stack, der, ps, shapes, live, lim, count);
      count' := count + 1;
      if !ok {
        error := Some(Malformed);
      }
    }
  }

  method RunStack(root: TreeNode, der: bytes, maxDepth: int, maxNodes: int)
    returns (error: Option<LimitError>, ghost shapes: Shapes)
    requires maxDepth > 0 && maxNodes > 0 && ParseHeader(der) == Ok(root.header)
    requires root.header.Extent() == |der| && root.Alone() == Leaf(der, 0, root.header) && root.children == []
    modifies root
    ensures match ParseWithLimits(der, maxDepth, maxNodes)
            case Refused(e) => error == Some(e)
            case Done(t) => error == None && root in shapes && shapes[root] == t
                            && Consistent(shapes) && fresh(shapes.Keys - {root})
  {
    var stack := [Frame(root, |der| - root.header.length, |der|, 0)];
    var count := 1;
    var lim := Limits(maxDepth, maxNodes);
    ghost var ps := [Pending(Leaf(der, 0, root.header), [], root.header.size, |der|, 0)];
    ghost var live := {root};
    ghost var goal := ParseWithLimits(der, maxDepth, maxNodes);
    shapes := map[];
    StartStep(der, lim, root.header);
    StartShows(stack, ps, root);
    assert LoopInvariant(root, stack, ps, shapes, live, der, lim, count, goal);
    hide Resume, StackShows, ParseHeader, ParseWithLimits, AllInRange;
    while |stack| > 0
      invariant LoopInvariant(root, stack, ps, shapes, live, der, lim, count, goal)
      invariant fresh(live - {root})
      decreases 2 * (maxNodes - count) + |stack|
    {
      error, stack, count, ps, shapes, live := Turn(root, stack, der, lim, count, ps, shapes, live, goal);
      if error.Some? {
        return error, shapes;
      }
    }
    return None, shapes;
  }

  lemma StartShows(stack: seq<Frame>, ps: seq<Pending>, root: TreeNode)
    requires root.children == []
    requires |stack| == 1 && stack[0].node == root
    requires ps == [Pending(root.Alone(), [], stack[0].cursor, stack[0].end, stack[0].depth)]
    ensures StackShows(stack, ps, map[], {root}) && Consistent(map[])
  {
  }

  /** The iterative parser returns what the value-level parser returns, error kinds included. */
  method ReadWithLimits(der: bytes, maxDepth: int, maxNodes: int)
    returns (r: Outcome<TreeNode>, ghost region: set<TreeNode>)
    ensures fresh(region)
    ensures match ParseWithLimits(der, maxDepth, maxNodes)
            case Refused(e) => r == Refused(e)
            case Done(t) => r.Done? && Represents(r.value, t, region)
  {
    hide ParseHeader, LimitChildren;
    region := {};
    if maxDepth <= 0 || maxNodes <= 0 {
      return Refused(BadLimits), region;
    }
    EmptyHeader();
    if |der| == 0 {
      return Refused(Malformed), region;
    }
    var header := ReadHeader(der, 0);
    if header.Err? {
      return Refused(Malformed), region;
    }
    var root, used := header.value.0, header.value.1;
    if used != |der| {
      return Refused(Malformed), region;
    }
    var error: Option<LimitError>;
    ghost var shapes: Shapes;
    error, shapes := RunStack(root, der, maxDepth, maxNodes);
    if error.Some? {
      return Refused(error.value), region;
    }
    ConsistentRepresents(root, shapes);
    return Done(root), shapes.Keys;
  }

  lemma EmptyHeader()
    ensures ParseHeader([]).Err?
  {
  }
}
