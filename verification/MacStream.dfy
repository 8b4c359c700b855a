/**
 The streaming MAC object. Its native context absorbs octets and can be finalised; some builds
 cannot duplicate it, and then the object replays a buffer instead. Every native call may fail
 and leave the context in any state, unless the context is a working one.
 */
module MacStream {
  import opened Results
  import opened Octets

  /** The tag of some octets under the key and parameters the context was made with. */
  type Mac = bytes -> bytes

  // ----- runs -----

  datatype Op = WriteOp(data: bytes) | SumOp | ResetOp

  /** One call and how it ended. */
  datatype Event = Wrote(data: bytes, ok: bool) | Summed(tag: Option<bytes>) | Reset

  /** The octets whose Write succeeded since the last Reset. */
  function Since(events: seq<Event>): bytes {
    if events == [] then []
    else
      Step(Since(events[..|events| - 1]), events[|events| - 1])
  }

  function Step(before: bytes, e: Event): bytes {
    if e.Reset? then []
    else if e.Wrote? && e.ok then before + e.data
    else before
  }

  /** Every tag handed out is the tag of the octets written since the last Reset. */
  ghost predicate Honest(mac: Mac, events: seq<Event>) {
    forall i :: 0 <= i < |events| && events[i].Summed? && events[i].tag.Some?
                ==> events[i].tag.value == mac(Since(events[..i]))
  }

  predicate Succeeded(e: Event) {
    (e.Wrote? ==> e.ok) && (e.Summed? ==> e.tag.Some?)
  }

  predicate AllSucceeded(events: seq<Event>) {
    forall i :: 0 <= i < |events| ==> Succeeded(events[i])
  }

  function OpOf(e: Event): Op {
    if e.Wrote? then WriteOp(e.data) else if e.Summed? then SumOp else ResetOp
  }

  function Ops(events: seq<Event>): (ops: seq<Op>)
    ensures |ops| == |events| && forall i :: 0 <= i < |events| ==> ops[i] == OpOf(events[i])
  {
    seq(|events|, i requires 0 <= i < |events| => OpOf(events[i]))
  }

  /** The tags of a run, in order. */
  function Tags(events: seq<Event>): seq<bytes> {
    if events == [] then []
    else
      var e := events[|events| - 1];
      Tags(events[..|events| - 1]) + if e.Summed? && e.tag.Some? then [e.tag.value] else []
  }

  /** The simple object: what is pending after some calls, and the tags it hands out. */
  function Pending(ops: seq<Op>): bytes {
    if ops == [] then []
    else
      var op := ops[|ops| - 1];
      if op.ResetOp? then []
      else if op.WriteOp? then Pending(ops[..|ops| - 1]) + op.data
      else Pending(ops[..|ops| - 1])
  }

  function Expected(mac: Mac, ops: seq<Op>): seq<bytes> {
    if ops == [] then []
    else
      var before := ops[..|ops| - 1];
      Expected(mac, before) + if ops[|ops| - 1].SumOp? then [mac(Pending(before))] else []
  }

  lemma {:induction false} RunIsExpected(mac: Mac, events: seq<Event>)
    requires Honest(mac, events) && AllSucceeded(events)
    ensures Since(events) == Pending(Ops(events))
    ensures Tags(events) == Expected(mac, Ops(events))
  {
    if events != [] {
      var before := events[..|events| - 1];
      assert Ops(events)[..|events| - 1] == Ops(before);
      forall i | 0 <= i < |before| && before[i].Summed? && before[i].tag.Some?
        ensures before[i].tag.value == mac(Since(before[..i]))
      {
        assert before[..i] == events[..i];
      }
      RunIsExpected(mac, before);
    }
  }

  /** Two objects that made the same calls, all of them successful, handed out the same tags. */
  lemma SameTags(mac: Mac, a: seq<Event>, b: seq<Event>)
    requires Honest(mac, a) && AllSucceeded(a) && Honest(mac, b) && AllSucceeded(b)
    requires Ops(a) == Ops(b)
    ensures Tags(a) == Tags(b)
  {
    RunIsExpected(mac, a);
    RunIsExpected(mac, b);
  }

  lemma Extend(mac: Mac, events: seq<Event>, e: Event)
    requires Honest(mac, events)
    requires e.Summed? && e.tag.Some? ==> e.tag.value == mac(Since(events))
    ensures Honest(mac, events + [e])
    ensures AllSucceeded(events + [e]) <==> AllSucceeded(events) && Succeeded(e)
    ensures Since(events + [e]) == Step(Since(events), e)
  {
    var more := events + [e];
    assert more[..|events|] == events;
    assert forall i :: 0 <= i < |events| ==> more[i] == events[i] && more[..i] == events[..i];
    if AllSucceeded(more) {
      assert forall i :: 0 <= i < |events| ==> Succeeded(more[i]);
      assert Succeeded(more[|events|]);
    }
  }

  // ----- the native context -----

  class NativeContext {
    const mac: Mac
    /** Calls in a legal order succeed; without this any call may fail. */
    const working: bool
    const canDup: bool
    var absorbed: bytes
    var finalised: bool

    constructor (mac: Mac, working: bool, canDup: bool)
      ensures this.mac == mac && this.working == working && this.canDup == canDup
      ensures absorbed == [] && !finalised
    {
      this.mac, this.working, this.canDup := mac, working, canDup;
      absorbed, finalised := [], false;
    }

    method Update(data: bytes) returns (ok: bool)
      modifies this
      ensures ok && !old(finalised) ==> absorbed == old(absorbed) + data && !finalised
      ensures working && !old(finalised) ==> ok
    {
      ok := *;
      ok := ok || (working && !finalised);
      if ok && !finalised {
        absorbed := absorbed + data;
      } else {
        absorbed, finalised := *, *;
      }
    }

    method Final() returns (r: Option<bytes>)
      modifies this
      ensures r.Some? && !old(finalised) ==> r.value == mac(old(absorbed)) && finalised
      ensures working && !old(finalised) ==> r.Some?
    {
      r := *;
      if working && !finalised {
        r := Some(mac(absorbed));
      }
      if r.Some? && !finalised {
        r, finalised := Some(mac(absorbed)), true;
      } else {
        absorbed, finalised := *, *;
      }
    }

    /** Duplicates and finalises the duplicate; the context itself stays as it is. */
    method Sum() returns (r: Option<bytes>)
      ensures r.Some? && !finalised ==> r.value == mac(absorbed)
      ensures working && !finalised ==> (r.Some? <==> canDup)
    {
      r := *;
      if !finalised {
        var dup := *;
        dup := if working then canDup else dup;
        r := if dup then Some(mac(absorbed)) else None;
      }
    }

    method Restart() returns (ok: bool)
      modifies this
      ensures ok ==> absorbed == [] && !finalised
      ensures working ==> ok
    {
      ok := *;
      ok := ok || working;
      if ok {
        absorbed, finalised := [], false;
      } else {
        absorbed, finalised := *, *;
      }
    }
  }

  // ----- the streaming object -----

  class MacHash {
    const ctx: NativeContext
    var replay: bool
    var buf: bytes
    var failed: bool

    /** All calls so far. */
    ghost var events: seq<Event>
    /** The native context is known to hold exactly the octets written since the last Reset. */
    ghost var clean: bool

    ghost predicate Valid()
      reads this, ctx
    {
      (replay ==> buf == Since(events))
      && (clean ==> !ctx.finalised && ctx.absorbed == Since(events))
      && (ctx.working ==> clean && AllSucceeded(events) && replay == !ctx.canDup)
      && (replay || ctx.working ==> Honest(ctx.mac, events))
    }

    /** Probes whether the context can be duplicated. */
    constructor (ctx: NativeContext)
      requires ctx.absorbed == [] && !ctx.finalised
      ensures Valid() && this.ctx == ctx && clean && !failed && events == []
      ensures ctx.working ==> replay == !ctx.canDup
    {
      this.ctx := ctx;
      buf, failed, replay := [], false, false;
      events, clean := [], true;
      new;
      var probe := ctx.Sum();
      if probe.None? {
        replay := true;
      }
    }

    method Write(p: bytes) returns (ok: bool)
      requires Valid()
      modifies this, ctx
      ensures Valid() && replay == old(replay) && failed == old(failed)
      ensures events == old(events) + [Wrote(p, ok)]
      ensures ctx.working ==> ok
      ensures old(clean) && ok ==> clean
    {
      ok := ctx.Update(p);
      LogWrite(p, ok);
      clean := clean && ok;
      if !ok {
        return;
      }
      if replay {
        buf := buf + p;
      }
    }

    ghost method LogWrite(p: bytes, ok: bool)
      modifies this`events
      ensures events == old(events) + [Wrote(p, ok)]
      ensures Since(events) == if ok then Since(old(events)) + p else Since(old(events))
      ensures Honest(ctx.mac, old(events)) ==> Honest(ctx.mac, events)
      ensures AllSucceeded(old(events)) && ok ==> AllSucceeded(events)
    {
      var before := events;
      events := events + [Wrote(p, ok)];
      assert events[..|before|] == before;
      if Honest(ctx.mac, before) {
        Extend(ctx.mac, before, Wrote(p, ok));
      }
    }

    /**
     The tag of the octets since the last Reset, appended to `prefix`; on failure only `prefix` and
     `failed`. The guarantee needs no working context in replay mode.
     */
    method Sum(prefix: bytes) returns (out: bytes, ghost tag: Option<bytes>)
      requires Valid()
      modifies this, ctx
      ensures Valid() && replay == old(replay)
      ensures events == old(events) + [Summed(tag)]
      ensures out == if tag.Some? then prefix + tag.value else prefix
      ensures failed == (old(failed) || tag.None?)
      ensures tag.Some? && (replay || old(clean)) ==> tag.value == ctx.mac(Since(old(events)))
      ensures ctx.working ==> tag.Some?
      ensures old(clean) && tag.Some? ==> clean
    {
      var sum: Option<bytes>;
      if replay {
        sum := Recompute();
      } else {
        sum := ctx.Sum();
      }
      LogSum(sum);
      tag := sum;
      if sum.None? {
        failed := true;
        return prefix, tag;
      }
      return prefix + sum.value, tag;
    }

    ghost method LogSum(tag: Option<bytes>)
      modifies this`events
      ensures events == old(events) + [Summed(tag)] && Since(events) == Since(old(events))
      ensures Honest(ctx.mac, old(events)) && (tag.Some? ==> tag.value == ctx.mac(Since(old(events))))
              ==> Honest(ctx.mac, events)
      ensures AllSucceeded(old(events)) && tag.Some? ==> AllSucceeded(events)
    {
      var before := events;
      events := events + [Summed(tag)];
      assert events[..|before|] == before;
      if Honest(ctx.mac, before) && (tag.Some? ==> tag.value == ctx.mac(Since(before))) {
        Extend(ctx.mac, before, Summed(tag));
      }
    }

    /** Rewind, finalise, rewind again so that writing can go on. */
    method Recompute() returns (r: Option<bytes>)
      requires Valid() && replay
      modifies ctx, this`clean
      ensures r.Some? ==> r.value == ctx.mac(Since(events)) && clean && !ctx.finalised && ctx.absorbed == buf
      ensures ctx.working ==> r.Some?
      ensures r.None? ==> !clean
    {
      clean := false;
      var ok := Rewind();
      if !ok {
        return None;
      }
      var tag := ctx.Final();
      if tag.None? {
        return None;
      }
      ok := Rewind();
      if !ok {
        return None;
      }
      clean := true;
      return tag;
    }

    method Rewind() returns (ok: bool)
      modifies ctx
      ensures ok ==> !ctx.finalised && ctx.absorbed == buf
      ensures ctx.working ==> ok
    {
      ok := ctx.Restart();
      if !ok {
        return;
      }
      if |buf| == 0 {
        return;
      }
      ok := ctx.Update(buf);
    }

    method Reset()
      requires Valid()
      modifies this, ctx
      ensures Valid() && replay == old(replay)
      ensures events == old(events) + [Event.Reset]
      ensures ctx.working ==> failed == old(failed)
      ensures clean || failed
    {
      ghost var before := events;
      buf := [];
      var ok := ctx.Restart();
      events := events + [Event.Reset];
      clean := ok;
      assert events[..|before|] == before;
      if Honest(ctx.mac, before) {
        Extend(ctx.mac, before, Event.Reset);
      }
      if !ok {
        failed := true;
      }
    }
  }

  /**
   Any calls, in either mode, on a context that works: the tags are those of the simple object that
   remembers the octets since Reset.
   */
  method Perform(ctx: NativeContext, ops: seq<Op>) returns (tags: seq<bytes>)
    requires ctx.working && ctx.absorbed == [] && !ctx.finalised
    modifies ctx
    ensures tags == Expected(ctx.mac, ops)
  {
    var h := new MacHash(ctx);
    tags := [];
    for i := 0 to |ops|
      invariant h.Valid() && h.ctx == ctx && fresh(h)
      invariant Ops(h.events) == ops[..i] && Tags(h.events) == tags
    {
      var more := PerformOne(h, ops[i]);
      tags := tags + more;
      assert ops[..i + 1] == ops[..i] + [ops[i]];
    }
    assert ops[..|ops|] == ops;
    RunIsExpected(ctx.mac, h.events);
  }

  method PerformOne(h: MacHash, op: Op) returns (tags: seq<bytes>)
    requires h.Valid() && h.ctx.working
    modifies h, h.ctx
    ensures h.Valid() && Ops(h.events) == Ops(old(h.events)) + [op]
    ensures Tags(h.events) == Tags(old(h.events)) + tags
  {
    tags := [];
    ghost var e := Event.Reset;
    match op {
      case WriteOp(data) =>
        var ok := h.Write(data);
        e := Wrote(data, ok);
      case SumOp =>
        var tag, given := h.Sum([]);
        assert [] + given.value == given.value;
        tags := [tag];
        e := Summed(given);
      case ResetOp =>
        h.Reset();
    }
    OneMore(old(h.events), e);
  }

  lemma OneMore(events: seq<Event>, e: Event)
    ensures Ops(events + [e]) == Ops(events) + [OpOf(e)]
    ensures Tags(events + [e]) == Tags(events) + if e.Summed? && e.tag.Some? then [e.tag.value] else []
  {
    assert (events + [e])[..|events|] == events;
  }

  /** One-shot over any split of the data: a result is the tag of all of it, whatever native calls may fail. */
  method SumChunks(ctx: NativeContext, chunks: seq<bytes>) returns (r: Option<bytes>)
    requires ctx.absorbed == [] && !ctx.finalised
    modifies ctx
    ensures r.Some? ==> r.value == ctx.mac(Concat(chunks))
    ensures ctx.working ==> r.Some?
  {
    var h := new MacHash(ctx);
    for i := 0 to |chunks|
      invariant h.Valid() && h.ctx == ctx && fresh(h) && h.clean && !h.failed
      invariant Since(h.events) == Concat(chunks[..i])
    {
      assert chunks[..i + 1][..i] == chunks[..i];
      ghost var before := h.events;
      var ok := h.Write(chunks[i]);
      assert h.events[..|before|] == before;
      if !ok {
        return None;
      }
    }
    assert chunks[..|chunks|] == chunks;
    var tag, _ := h.Sum([]);
    if h.failed {
      return None;
    }
    return Some(tag);
  }
}
