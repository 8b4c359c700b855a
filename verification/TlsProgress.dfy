/**
 Why every call on a connection ends: each step that is not a new call uses up something, so a run
 with finitely many calls is finite, and where it cannot go on every call has returned.
 */
module TlsProgress {
  import opened Results
  import opened TlsHandshake

  // ----- what is still to be done -----

  function PlaceRank(place: Place): nat {
    match place
    case Arrived => 7
    case InBody => 7
    case InClose => 7
    case IoStart => 6
    case IoWait => 5
    case IoHeld => 4
    case IoLoop => 3
    case IoNative => 2
    case Returned(_) => 0
  }

  /** Two for every octet to be sent, one for a context that can still end. */
  function ThreadRank(t: Thread): nat {
    PlaceRank(t.place) + (if t.place.Returned? then 0 else 2 * t.left)
    + if t.op.ShakeOp? && t.ctx.Live? then 1 else 0
  }

  function PcRank(pc: Pc): nat {
    match pc
    case Entry => 11
    case Select => 10
    case Join => 9
    case CallbackCheck => 8
    case StateCall => 7
    case Snapshot(_) => 6
    case Publish(_) => 5
    case FinalCheck => 4
    case Withdraw => 3
    case Mark => 2
    case Leave => 1
  }

  function ShakeRank(k: Shake): nat {
    (match k.once
     case Fresh => 12
     case Running(_, pc) => PcRank(pc)
     case Finished => 0)
    + match k.helper
      case NotSpawned => 2
      case Spawned => 2
      case InNative => 1
      case Sent(_) => 0
  }

  function CloseRank(c: CloseOnce): nat {
    match c
    case CloseFresh => 6
    case Closing(_, SetClosed, _) => 5
    case Closing(_, Halt, _) => 4
    case Closing(_, CloseRaw, _) => 3
    case Closing(_, CloseHandle, _) => 2
    case Closing(_, CloseContext, _) => 1
    case CloseFinished => 0
  }

  ghost function ThreadsRank(threads: map<nat, Thread>): nat {
    if threads == map[] then 0
    else
      var id :| id in threads;
      ThreadRank(threads[id]) + ThreadsRank(threads - {id})
  }

  ghost function Rank(s: State): nat {
    ThreadsRank(s.threads) + ShakeRank(s.shake) + CloseRank(s.close.once)
  }

  lemma {:induction false} RankOfOne(threads: map<nat, Thread>, id: nat)
    requires id in threads
    ensures ThreadsRank(threads) == ThreadRank(threads[id]) + ThreadsRank(threads - {id})
    decreases |threads|
  {
    var other :| other in threads
                 && ThreadsRank(threads) == ThreadRank(threads[other]) + ThreadsRank(threads - {other});
    if other != id {
      RankOfOne(threads - {other}, id);
      RankOfOne(threads - {id}, other);
      assert threads - {other} - {id} == threads - {id} - {other};
    }
  }

  /** Changing one goroutine changes the sum by its own difference. */
  lemma RankMoves(threads: map<nat, Thread>, id: nat, t: Thread)
    ensures id in threads
            ==> ThreadsRank(threads[id := t]) == ThreadsRank(threads) - ThreadRank(threads[id]) + ThreadRank(t)
    ensures id !in threads ==> ThreadsRank(threads[id := t]) == ThreadsRank(threads) + ThreadRank(t)
  {
    var next := threads[id := t];
    RankOfOne(next, id);
    if id in threads {
      RankOfOne(threads, id);
      assert next - {id} == threads - {id};
    } else {
      assert next - {id} == threads;
    }
  }

  // ----- every step but a new call uses some of it up -----

  lemma BodyNextSpends(k: Shake, ctx: TlsHandshake.Context, hasHandle: bool, admits: bool, choice: Choice)
    requires OnceInv(k) && BodyEnabled(k, ctx, choice)
    ensures ShakeRank(BodyNext(k, ctx, hasHandle, admits, choice)) < ShakeRank(k)
  {
  }

  lemma BodySpends(s: State, choice: Choice)
    requires Inv(s) && Enabled(s, Body(choice))
    ensures Rank(BodyStep(s, choice)) < Rank(s)
  {
    var owner := s.shake.once.owner;
    assert s.threads[owner].place.InBody?;
    BodyNextSpends(s.shake, s.OwnerContext(), s.hasHandle, s.Admits(), choice);
    RankMoves(s.threads, owner, s.threads[owner].(place := Arrived));
    hide BodyNext, BodyEnabled, Inv, ShakeRank;
  }

  lemma ProceedSpends(s: State, id: nat)
    requires CanProceed(s, id)
    ensures Rank(Proceeded(s, id)) < Rank(s)
  {
    var t := s.threads[id];
    var moved := Proceeded(s, id).threads[id];
    assert moved == t.(place := moved.place);
    assert Proceeded(s, id).threads == s.threads[id := moved];
    RankMoves(s.threads, id, moved);
  }

  lemma IoSpends(s: State, id: nat, choice: IoChoice)
    requires Enabled(s, Io(id, choice))
    ensures Rank(IoStep(s, id, choice)) < Rank(s)
  {
    var t := s.threads[id];
    var to := IoPlace(t, s.close.closed, s.Admits(), choice);
    RankMoves(s.threads, id, t.(place := to, left := IoLeft(t, choice)));
  }

  lemma CloseSpends(s: State, error: Option<nat>)
    requires Inv(s) && Enabled(s, Shut(error))
    ensures Rank(CloseStep(s, error)) < Rank(s)
  {
    hide TrafficInv, OnceInv, FlightInv, HelperInv, ContextInv;
    var closer := s.close.once.closer;
    assert s.threads[closer].place.InClose?;
    RankMoves(s.threads, closer, s.threads[closer].(place := Arrived));
  }

  lemma StepSpends(s: State, a: Action)
    requires Inv(s) && Enabled(s, a) && !a.Call?
    ensures Rank(Step(s, a)) < Rank(s)
  {
    match a
    case Cancel(id, cause) => RankMoves(s.threads, id, s.threads[id].(ctx := Ended(cause)));
    case Proceed(id) => ProceedSpends(s, id);
    case Body(choice) => BodySpends(s, choice);
    case HelperBegin =>
    case HelperEnd(_) =>
    case Io(id, io) => IoSpends(s, id, io);
    case Shut(error) => CloseSpends(s, error);
  }

  // ----- every run ends -----

  /** What the calls of a run bring with them. */
  function Brought(actions: seq<Action>): nat {
    if actions == [] then 0
    else
      var a := actions[|actions| - 1];
      Brought(actions[..|actions| - 1]) + if a.Call? then 1 + ThreadRank(Caller(a.op, a.ctx, a.size)) else 0
  }

  /**
   A run is no longer than what was there to be done and what its calls brought: with finitely many
   calls no schedule goes on for ever.
   */
  lemma {:induction false} RunsEnd(s: State, more: seq<Action>)
    requires Inv(s) && After(s, more).Some?
    ensures |more| + Rank(After(s, more).value) <= Rank(s) + Brought(more)
  {
    if more != [] {
      hide Inv, Step, Enabled, Rank;
      var earlier, a := more[..|more| - 1], more[|more| - 1];
      var before := After(s, earlier).value;
      RunsEnd(s, earlier);
      AfterKeeps(s, earlier);
      if a.Call? {
        CallBrings(before, a.id, a.op, a.ctx, a.size);
      } else {
        StepSpends(before, a);
      }
    }
  }

  lemma CallBrings(s: State, id: nat, op: Op, ctx: TlsHandshake.Context, size: nat)
    requires Enabled(s, Call(id, op, ctx, size))
    ensures Rank(Step(s, Call(id, op, ctx, size))) == Rank(s) + ThreadRank(Caller(op, ctx, size))
  {
    RankMoves(s.threads, id, Caller(op, ctx, size));
  }

  predicate AllReturned(s: State) {
    forall id :: id in s.threads ==> s.threads[id].place.Returned?
  }

  /** Where nothing can happen but new calls and cancellations, every call has returned. */
  lemma StuckMeansReturned(s: State)
    requires Reachable(s) && forall a :: Enabled(s, a) ==> a.Call? || a.Cancel?
    ensures AllReturned(s)
  {
    forall id | id in s.threads ensures s.threads[id].place.Returned? {
      if !s.threads[id].place.Returned? {
        var a := NeverStuck(s, id);
        assert false;
      }
    }
  }

  /** From every reachable state all calls can return without new calls or cancellations. */
  lemma {:induction false} EveryCallReturns(s: State) returns (more: seq<Action>, end: State)
    requires Reachable(s)
    ensures After(s, more) == Some(end) && AllReturned(end)
    ensures forall i :: 0 <= i < |more| ==> !more[i].Call? && !more[i].Cancel?
    decreases Rank(s)
  {
    if AllReturned(s) {
      return [], s;
    }
    var id :| id in s.threads && !s.threads[id].place.Returned?;
    var a := NeverStuck(s, id);
    ReachableInv(s);
    StepSpends(s, a);
    hide Step, Enabled, Rank, AllReturned;
    StepReachable(s, a);
    more, end := EveryCallReturns(Step(s, a));
    StepFirst(s, a, more);
    more := [a] + more;
  }

  lemma StepReachable(s: State, a: Action)
    requires Reachable(s) && Enabled(s, a)
    ensures Reachable(Step(s, a))
  {
    var hasHandle, actions :| After(Initial(hasHandle), actions) == Some(s);
    var _, _ := Extend(Initial(hasHandle), actions, s, a);
  }

  lemma {:induction false} StepFirst(s: State, a: Action, more: seq<Action>)
    requires Enabled(s, a)
    ensures After(s, [a] + more) == After(Step(s, a), more)
  {
    hide Step, Enabled;
    if more == [] {
      assert [a] + more == [a] && [a][..0] == [];
    } else {
      StepFirst(s, a, more[..|more| - 1]);
      assert ([a] + more)[..|more|] == [a] + more[..|more| - 1];
    }
  }
}
