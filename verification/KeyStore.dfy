/**
 The rotating in-memory key store. Its archive is described by what has happened: the handles
 stored under an ID, in order, without those that were current when their ID was deleted.
 */
module KeyStore {
  import opened Results

  type Key = nat
  type uint32 = n: nat | n < 0x1_0000_0000

  /** A key entry. Only a missing algorithm name is ever filled in later. */
  class Handle {
    const id: string
    const alias: string
    const version: uint32
    const generation: nat
    const createdAt: int
    const key: Option<Key>
    var algorithm: string

    constructor (id: string, alias: string, algorithm: string, version: uint32, generation: nat, createdAt: int,
                 key: Option<Key>)
      ensures this.id == id && this.alias == alias && this.algorithm == algorithm && this.version == version
      ensures this.generation == generation && this.createdAt == createdAt && this.key == key
    {
      this.id, this.alias, this.algorithm, this.version := id, alias, algorithm, version;
      this.generation, this.createdAt, this.key := generation, createdAt, key;
    }
  }

  // ----- what has happened -----

  datatype Event = Stored(id: string, h: Handle, rotated: bool) | Deleted(id: string)

  /** The last of the first `n` events that is about `id`. */
  function LastOn(events: seq<Event>, n: nat, id: string): (r: Option<nat>)
    requires n <= |events|
    ensures r.Some? ==> r.value < n && events[r.value].id == id && forall k :: r.value < k < n ==> events[k].id != id
    ensures r.None? ==> forall k :: 0 <= k < n ==> events[k].id != id
  {
    if n == 0 then None
    else if events[n - 1].id == id then Some(n - 1)
    else LastOn(events, n - 1, id)
  }

  /** Some deletion found the handle of event `i` current. */
  predicate DeletedWhileCurrent(events: seq<Event>, i: nat) {
    exists j :: 0 <= j < |events| && DeletesCurrent(events, i, j)
  }

  /** Event `j` deletes an ID whose current handle is that of event `i`. */
  predicate DeletesCurrent(events: seq<Event>, i: nat, j: nat)
    requires j < |events|
  {
    events[j].Deleted? && LastOn(events, j, events[j].id) == Some(i)
  }

  predicate Survives(events: seq<Event>, i: nat)
    requires i < |events|
  {
    events[i].Stored? && !DeletedWhileCurrent(events, i)
  }

  /** The handles stored under `id` by the first `n` events that survive all of them, in order. */
  function SurvivorsTo(events: seq<Event>, id: string, n: nat): seq<Handle>
    requires n <= |events|
  {
    if n == 0 then []
    else
      SurvivorsTo(events, id, n - 1)
      + if events[n - 1].id == id && Survives(events, n - 1) then [events[n - 1].h] else []
  }

  function Survivors(events: seq<Event>, id: string): seq<Handle> {
    SurvivorsTo(events, id, |events|)
  }

  /** The handle that is current after the events. */
  function CurrentOf(events: seq<Event>, id: string): Option<Handle> {
    var last := LastOn(events, |events|, id);
    if last.Some? && events[last.value].Stored? then Some(events[last.value].h) else None
  }

  /** Every rotation follows a current handle and takes over everything but version, time and key. */
  ghost predicate RotationsLinked(events: seq<Event>) {
    forall i :: 0 <= i < |events| && events[i].Stored? && events[i].rotated ==> Follows(events, i)
  }

  predicate Follows(events: seq<Event>, i: nat)
    requires i < |events| && events[i].Stored?
  {
    var last := LastOn(events, i, events[i].id);
    last.Some? && events[last.value].Stored? && IsRotationOf(events[i].h, events[last.value].h)
  }

  predicate IsRotationOf(next: Handle, previous: Handle) {
    next.version == (previous.version + 1) % 0x1_0000_0000 && next.alias == previous.alias
    && next.generation == previous.generation
  }

  lemma {:induction false} LastOnPrefix(events: seq<Event>, e: Event, n: nat, id: string)
    requires n <= |events|
    ensures LastOn(events + [e], n, id) == LastOn(events, n, id)
  {
    if n > 0 {
      LastOnPrefix(events, e, n - 1, id);
    }
  }

  lemma SurvivesOne(events: seq<Event>, e: Event, i: nat)
    requires i < |events|
    ensures Survives(events + [e], i)
            <==> Survives(events, i) && !(e.Deleted? && LastOn(events, |events|, e.id) == Some(i))
  {
    var more := events + [e];
    forall j | 0 <= j < |events|
      ensures DeletesCurrent(more, i, j) <==> DeletesCurrent(events, i, j)
    {
      LastOnPrefix(events, e, j, more[j].id);
    }
    LastOnPrefix(events, e, |events|, e.id);
    assert DeletesCurrent(more, i, |events|) <==> e.Deleted? && LastOn(events, |events|, e.id) == Some(i);
    hide DeletesCurrent, LastOn;
  }

  /** An event that deletes no handle of `id` changes nothing about the earlier ones. */
  lemma {:induction false} SurvivorsKept(events: seq<Event>, e: Event, id: string, n: nat)
    requires n <= |events|
    requires e.Deleted? && e.id == id ==> LastOn(events, |events|, id).None? || n <= LastOn(events, |events|, id).value
                                          || events[LastOn(events, |events|, id).value].Deleted?
    ensures SurvivorsTo(events + [e], id, n) == SurvivorsTo(events, id, n)
  {
    if n > 0 {
      SurvivorsKept(events, e, id, n - 1);
      SurvivesOne(events, e, n - 1);
    }
  }

  /** The last event on an ID is not deleted by an earlier one. */
  lemma LastSurvives(events: seq<Event>, id: string)
    requires CurrentOf(events, id).Some?
    ensures Survives(events, LastOn(events, |events|, id).value)
  {
    var last := LastOn(events, |events|, id).value;
    forall j | 0 <= j < |events| ensures !DeletesCurrent(events, last, j) {
    }
  }

  /** Events after the last one on `id` add nothing. */
  lemma {:induction false} NothingAfterLast(events: seq<Event>, id: string, n: nat, m: nat)
    requires n <= m <= |events| && forall k :: n <= k < m ==> events[k].id != id
    ensures SurvivorsTo(events, id, m) == SurvivorsTo(events, id, n)
  {
    if n < m {
      NothingAfterLast(events, id, n, m - 1);
    }
  }

  /** The current handle is the last survivor. */
  lemma CurrentIsLast(events: seq<Event>, id: string)
    requires CurrentOf(events, id).Some?
    ensures Survivors(events, id)
            == SurvivorsTo(events, id, LastOn(events, |events|, id).value) + [CurrentOf(events, id).value]
  {
    var last := LastOn(events, |events|, id).value;
    LastSurvives(events, id);
    NothingAfterLast(events, id, last + 1, |events|);
  }

  lemma StoredAdds(events: seq<Event>, e: Event, id: string)
    requires e.Stored?
    ensures Survivors(events + [e], id) == Survivors(events, id) + if e.id == id then [e.h] else []
    ensures CurrentOf(events + [e], id) == if e.id == id then Some(e.h) else CurrentOf(events, id)
  {
    var more := events + [e];
    SurvivorsKept(events, e, id, |events|);
    LastOnPrefix(events, e, |events|, id);
    if e.id == id {
      LastSurvives(more, id);
    }
  }

  lemma DeletedDrops(events: seq<Event>, id: string, other: string)
    requires CurrentOf(events, id).Some?
    ensures var more := events + [Deleted(id)];
            CurrentOf(more, other) == (if other == id then None else CurrentOf(events, other))
            && (if other == id then Survivors(events, id) == Survivors(more, id) + [CurrentOf(events, id).value]
                else Survivors(more, other) == Survivors(events, other))
  {
    var e := Event.Deleted(id);
    var more := events + [e];
    LastOnPrefix(events, e, |events|, other);
    if other == id {
      var last := LastOn(events, |events|, id).value;
      CurrentIsLast(events, id);
      SurvivorsKept(events, e, id, last);
      SurvivesOne(events, e, last);
      NothingAfterLast(more, id, last + 1, |events|);
    } else {
      SurvivorsKept(events, e, other, |events|);
    }
  }

  lemma LinkOne(events: seq<Event>, e: Event)
    requires RotationsLinked(events)
    requires e.Stored? && e.rotated
             ==> CurrentOf(events, e.id).Some? && IsRotationOf(e.h, CurrentOf(events, e.id).value)
    ensures RotationsLinked(events + [e])
  {
    var more := events + [e];
    forall i | 0 <= i < |more| && more[i].Stored? && more[i].rotated
      ensures Follows(more, i)
    {
      LastOnPrefix(events, e, i, more[i].id);
      if i < |events| {
        assert Follows(events, i);
      }
    }
  }

  // ----- the order of IDs -----

  predicate Less(a: string, b: string) {
    b != "" && (a == "" || a[0] < b[0] || (a[0] == b[0] && Less(a[1..], b[1..])))
  }

  lemma {:induction false} LessTotal(a: string, b: string)
    ensures a == b || Less(a, b) || Less(b, a)
    ensures !(Less(a, b) && Less(b, a)) && !Less(a, a)
  {
    if a != "" && b != "" {
      LessTotal(a[1..], b[1..]);
      LessTotal(a[1..], a[1..]);
      assert a == [a[0]] + a[1..] && b == [b[0]] + b[1..];
    } else if a != "" {
      LessTotal(a[1..], a[1..]);
    }
  }

  lemma {:induction false} LessTransitive(a: string, b: string, c: string)
    requires Less(a, b) && Less(b, c)
    ensures Less(a, c)
  {
    if a != "" && a[0] == b[0] == c[0] {
      LessTransitive(a[1..], b[1..], c[1..]);
    }
  }

  predicate Sorted(handles: seq<Handle>) {
    forall i, j :: 0 <= i < j < |handles| ==> Less(handles[i].id, handles[j].id)
  }

  /** Inserts into a sorted list by ID. */
  method Insert(handles: seq<Handle>, h: Handle) returns (r: seq<Handle>)
    requires Sorted(handles) && forall i :: 0 <= i < |handles| ==> handles[i].id != h.id
    ensures Sorted(r) && forall x: Handle :: x in r <==> x in handles || x == h
  {
    var i := 0;
    while i < |handles| && Less(handles[i].id, h.id)
      invariant i <= |handles| && forall k :: 0 <= k < i ==> Less(handles[k].id, h.id)
    {
      i := i + 1;
    }
    if i < |handles| {
      LessTotal(handles[i].id, h.id);
      forall k | i < k < |handles| ensures Less(h.id, handles[k].id) {
        LessTransitive(h.id, handles[i].id, handles[k].id);
      }
    }
    assert handles == handles[..i] + handles[i..];
    r := handles[..i] + [h] + handles[i..];
  }

  /** A sorted list is determined by the handles in it. */
  lemma {:induction false} SortedIsUnique(a: seq<Handle>, b: seq<Handle>)
    requires Sorted(a) && Sorted(b) && forall h :: h in a <==> h in b
    ensures a == b
  {
    assert |b| > 0 ==> b[0] in b;
    if a != [] {
      assert a[0] in b;
      var i :| 0 <= i < |b| && b[i] == a[0];
      assert b[0] in a;
      var j :| 0 <= j < |a| && a[j] == b[0];
      LessTotal(a[0].id, b[0].id);
      assert a[0] == b[0];
      forall h ensures h in a[1..] <==> h in b[1..] {
        TailMembers(a, h);
        TailMembers(b, h);
      }
      SortedIsUnique(a[1..], b[1..]);
    }
  }

  lemma TailMembers(a: seq<Handle>, h: Handle)
    requires Sorted(a) && a != []
    ensures h in a[1..] <==> h in a && h != a[0]
  {
    LessTotal(a[0].id, a[0].id);
    if h in a && h != a[0] {
      var i :| 0 <= i < |a| && a[i] == h;
      assert a[1..][i - 1] == h;
    }
  }

  // ----- the store -----

  class MemoryStore {
    /** The name of a key's algorithm. */
    const algorithmName: Key -> string
    var keys: map<string, Handle>
    var hist: map<string, array<Handle>>
    ghost var events: seq<Event>

    ghost function Archived(id: string): seq<Handle>
      reads this, hist.Values
    {
      if id in hist then hist[id][..] else []
    }

    function Current(id: string): Option<Handle>
      reads this
    {
      if id in keys then Some(keys[id]) else None
    }

    /** Archive and current entry together are the survivors of what has happened. */
    ghost predicate Consistent(id: string)
      reads this, hist.Values
    {
      Current(id) == CurrentOf(events, id)
      && Archived(id) + (if id in keys then [keys[id]] else []) == Survivors(events, id)
    }

    ghost predicate Valid()
      reads this, hist.Values
    {
      (forall id :: Consistent(id))
      && (forall id :: id in keys ==> keys[id].id == id && id != "")
      && (forall id :: id in hist ==> hist[id].Length > 0)
      && RotationsLinked(events)
    }

    constructor (algorithmName: Key -> string)
      ensures Valid() && keys == map[] && hist == map[] && events == []
    {
      this.algorithmName := algorithmName;
      keys, hist, events := map[], map[], [];
    }

    /** Appends the current handle of `id`, if any, to its archive. */
    method Archive(id: string)
      modifies `hist
      ensures id !in keys ==> hist == old(hist)
      ensures id in keys ==> id in hist && fresh(hist[id]) && hist == old(hist)[id := hist[id]]
                             && hist[id][..] == old(Archived(id)) + [keys[id]]
    {
      if id in keys {
        var longer := Append(if id in hist then hist[id] else null, keys[id]);
        hist := hist[id := longer];
      }
    }

    /** Makes `h` current; the handle it replaces goes to the archive. */
    method Replace(h: Handle, ghost rotated: bool)
      requires Valid() && h.id != ""
      requires rotated ==> h.id in keys && IsRotationOf(h, keys[h.id])
      modifies `keys, `hist, `events
      ensures Valid() && keys == old(keys)[h.id := h] && events == old(events) + [Stored(h.id, h, rotated)]
    {
      ghost var e := Stored(h.id, h, rotated);
      assert Consistent(h.id);
      LinkOne(events, e);
      Archive(h.id);
      keys := keys[h.id := h];
      events := events + [e];
      forall id ensures Consistent(id) {
        assert old(Consistent(id));
        StoredAdds(old(events), e, id);
      }
    }

    /** Stores an entry, filling in a missing algorithm name. */
    method Put(h: Handle?) returns (ok: bool)
      requires Valid()
      modifies this, h
      ensures Valid() && (ok <==> h != null && h.id != "")
      ensures !ok ==> keys == old(keys) && hist == old(hist) && events == old(events)
      ensures ok ==> keys == old(keys)[h.id := h] && events == old(events) + [Stored(h.id, h, false)]
      ensures h != null ==> h.algorithm == if ok && old(h.algorithm) == "" && h.key.Some?
                                           then algorithmName(h.key.value)
                                           else old(h.algorithm)
    {
      if h == null || h.id == "" {
        return false;
      }
      Replace(h, false);
      if h.algorithm == "" && h.key.Some? {
        h.algorithm := algorithmName(h.key.value);
      }
      return true;
    }

    /** Removes the current entry without archiving it. */
    method Delete(id: string) returns (ok: bool)
      requires Valid()
      modifies this
      ensures Valid() && ok == (id in old(keys)) && hist == old(hist)
      ensures keys == old(keys) - {id}
      ensures events == if ok then old(events) + [Event.Deleted(id)] else old(events)
    {
      if id !in keys {
        return false;
      }
      ghost var e := Event.Deleted(id);
      assert Consistent(id);
      LinkOne(events, e);
      keys := keys - {id};
      events := events + [e];
      forall other ensures Consistent(other) {
        assert old(Consistent(other));
        DeletedDrops(old(events), id, other);
        if other == id {
          SameLast(Archived(id), Survivors(events, id), old(keys[id]));
        }
      }
      return true;
    }

    /** Replaces the key under an ID by a new one with the next version. */
    method Rotate(id: string, newKey: Option<Key>, now: int) returns (next: Handle?)
      requires Valid()
      modifies this
      ensures Valid() && (next != null <==> newKey.Some? && id in old(keys))
      ensures next == null ==> keys == old(keys) && hist == old(hist) && events == old(events)
      ensures next != null ==> fresh(next) && next.id == id && next.key == newKey && next.createdAt == now
                               && next.algorithm == algorithmName(newKey.value)
                               && IsRotationOf(next, old(keys[id]))
                               && keys == old(keys)[id := next] && events == old(events) + [Stored(id, next, true)]
    {
      if newKey.None? || id !in keys {
        return null;
      }
      var previous := keys[id];
      assert previous.id == id;
      next := new Handle(id, previous.alias, algorithmName(newKey.value), (previous.version + 1) % 0x1_0000_0000,
                         previous.generation, now, newKey);
      Replace(next, true);
    }

    method Get(id: string) returns (h: Handle?)
      requires Valid()
      ensures h == null <==> CurrentOf(events, id).None?
      ensures h != null ==> CurrentOf(events, id) == Some(h)
    {
      assert Consistent(id);
      h := if id in keys then keys[id] else null;
    }

    /**
     The archive of an ID in storage of the caller's own: with the current entry it is the
     survivors under that ID. Not found means that there are none.
     */
    method History(id: string) returns (out: array?<Handle>)
      requires Valid()
      ensures out == null <==> Survivors(events, id) == []
      ensures out != null ==> fresh(out)
                              && out[..] + (if id in keys then [keys[id]] else []) == Survivors(events, id)
    {
      assert Consistent(id);
      if id !in keys && id !in hist {
        return null;
      }
      if id in hist {
        var a := hist[id];
        out := new Handle[a.Length](i requires 0 <= i < a.Length reads a => a[i]);
      } else {
        out := new Handle[0];
      }
    }

    /** All current entries by ID, in storage of the caller's own. */
    method List() returns (out: array<Handle>)
      requires Valid()
      ensures fresh(out) && Sorted(out[..])
      ensures forall h: Handle :: h in out[..] <==> h.id in keys && keys[h.id] == h
    {
      var handles: seq<Handle> := [];
      var rest := keys.Keys;
      while rest != {}
        invariant rest <= keys.Keys && Sorted(handles)
        invariant forall h: Handle :: h in handles <==> h.id in keys && h.id !in rest && keys[h.id] == h
        decreases |rest|
      {
        var id :| id in rest;
        handles := Insert(handles, keys[id]);
        rest := rest - {id};
      }
      if handles == [] {
        out := new Handle[0];
      } else {
        out := new Handle[|handles|](i requires 0 <= i < |handles| => handles[i]);
      }
      assert out[..] == handles;
    }
  }

  method Append(a: array?<Handle>, h: Handle) returns (longer: array<Handle>)
    ensures fresh(longer) && longer[..] == (if a == null then [] else a[..]) + [h]
  {
    var n := if a == null then 0 else a.Length;
    longer := new Handle[n + 1](_ => h);
    for i := 0 to n
      invariant fresh(longer) && longer[n] == h
      invariant forall k :: 0 <= k < i ==> longer[k] == a[k]
    {
      longer[i] := a[i];
    }
  }

  lemma SameLast(a: seq<Handle>, b: seq<Handle>, h: Handle)
    ensures a + [h] == b + [h] ==> a == b
  {
    if a + [h] == b + [h] {
      assert a == (a + [h])[..|a|] && b == (b + [h])[..|b|];
    }
  }
}
