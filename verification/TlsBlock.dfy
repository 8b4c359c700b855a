/**
 The handshake block as one goroutine runs it and the block in the step machine do the same: for
 everything the former can hear some run of the machine asks and hears just that, in that order, and
 caches the same error; and whatever a run of the machine asks and hears, the former caches its error.
 */
module TlsBlock {
  import opened Results
  import opened TlsHandshake
  import TlsConn

  // ----- what the block asks and hears -----

  /** What the sequential block hears: its context, whether there is a report, and everybody else. */
  datatype Account = Account(ctx: TlsConn.Polls, hasReport: bool, heard: TlsConn.Heard) {
    function Error(): Option<Error> {
      TlsConn.BlockError(ctx, hasReport, heard)
    }
  }

  /** An answer the block gets, with what its context had come to by then where it asks that too. */
  datatype Event =
    | Outcome(native: Option<Error>, ended: Option<ContextError>)
    | Asked(reported: Option<CallbackReport>, ended: Option<ContextError>)
    | Reached(hasReport: bool)
    | Verdict(refusal: Option<nat>)
    | LastLook(ended: Option<ContextError>)

  function Chosen(a: Account): seq<Event> {
    [Outcome(a.heard.native, a.ctx.atSelect)]
  }

  function Early(a: Account): seq<Event> {
    Chosen(a) + [Asked(a.heard.reported, a.ctx.atCallback)]
  }

  /** The state is taken only from a connection that gives a report. */
  function UpToCapture(a: Account): seq<Event> {
    var reached := Early(a) + [Reached(a.hasReport)];
    if a.hasReport then reached + [Verdict(a.heard.refusal)] else reached
  }

  /** All of them in program order. */
  function Transcript(a: Account): seq<Event> {
    UpToCapture(a) + [LastLook(a.ctx.atEnd)]
  }

  /** The error depends on nothing else. */
  lemma TranscriptDecides(a: Account, b: Account)
    requires Transcript(a) == Transcript(b)
    ensures a.Error() == b.Error()
  {
    var t, u := Transcript(a), Transcript(b);
    assert t[0] == u[0] && t[1] == u[1] && t[2] == u[2] && t[3] == u[3] && t[|t| - 1] == u[|u| - 1];
  }

  function Poll(ctx: TlsHandshake.Context): Option<ContextError> {
    if ctx.Ended? then Some(ctx.cause) else None
  }

  /** What the machine's block learns in its next step. */
  function Learned(s: State, choice: Choice): seq<Event>
    requires BodyEnabled(s.shake, s.OwnerContext(), choice)
  {
    var now := Poll(s.OwnerContext());
    match s.shake.once.pc
    case Select => if choice.SeeCancel? then [] else [Outcome(s.shake.helper.outcome, now)]
    case Join => [Outcome(s.shake.helper.outcome, now)]
    case CallbackCheck => [Asked(choice.report, now)]
    case StateCall => [Reached(s.Admits())]
    case Publish(_) => [Verdict(choice.error)]
    case FinalCheck => [LastLook(now)]
    case _ => []
  }

  /** What it learns in a run, in order. */
  function Events(s: State, run: seq<Action>): seq<Event>
    requires After(s, run).Some?
  {
    if run == [] then []
    else
      var earlier, step := run[..|run| - 1], run[|run| - 1];
      Events(s, earlier) + if step.Body? then Learned(After(s, earlier).value, step.choice) else []
  }

  lemma EventsExtend(from: State, run: seq<Action>, step: Action)
    requires After(from, run + [step]).Some?
    ensures After(from, run).Some? && (step.Body? ==> Enabled(After(from, run).value, step))
    ensures Events(from, run + [step])
            == Events(from, run) + if step.Body? then Learned(After(from, run).value, step.choice) else []
  {
    assert (run + [step])[..|run|] == run;
  }

  predicate HasEnded(s: State, owner: nat, ended: Option<ContextError>) {
    ended.Some? ==> owner in s.threads && s.threads[owner].ctx == Ended(ended.value)
  }

  /** Where an answer comes from: the helper, the owner's context, the callbacks of the run or the native connection. */
  predicate Witnessed(s: State, run: seq<Action>, owner: nat, e: Event) {
    match e
    case Outcome(native, ended) => s.shake.helper == Sent(native) && HasEnded(s, owner, ended)
    case Asked(reported, ended) => Body(Told(reported)) in run && HasEnded(s, owner, ended)
    case Reached(hasReport) => if hasReport then s.hasHandle else !s.Admits()
    case Verdict(refusal) => Body(Hear(refusal)) in run
    case LastLook(ended) => HasEnded(s, owner, ended)
  }

  /** What has been learned is so for the rest of the run. */
  lemma WitnessStays(s: State, run: seq<Action>, owner: nat, e: Event, step: Action)
    requires Inv(s) && Witnessed(s, run, owner, e) && Enabled(s, step)
    ensures Witnessed(Step(s, step), run + [step], owner, e)
  {
    hide ThreadsInv, TrafficInv, CloseInv, FlightInv, HelperInv, ContextInv, IoEnabled, IoPlace, IoLeft, IoTraffic;
  }

  lemma LearnedIsWitnessed(s: State, owner: nat, run: seq<Action>, e: Event, choice: Choice)
    requires Enabled(s, Body(choice)) && RunBy(s.shake.once, owner) && e in Learned(s, choice)
    ensures Witnessed(Step(s, Body(choice)), run + [Body(choice)], owner, e)
  {
  }

  predicate RunBy(once: Once, owner: nat) {
    once.Finished? || (once.Running? && once.owner == owner)
  }

  lemma OwnerStays(s: State, owner: nat, step: Action)
    requires RunBy(s.shake.once, owner) && Enabled(s, step)
    ensures RunBy(Step(s, step).shake.once, owner)
    ensures step.Body? ==> s.shake.once.Running? && BodyEnabled(s.shake, s.OwnerContext(), step.choice)
  {
    hide IoEnabled, IoPlace, IoLeft, IoTraffic, CloseNext;
  }

  /** Every answer the block of a run gets comes from that run. */
  lemma {:induction false} EventsAreWitnessed(s: State, owner: nat, run: seq<Action>)
    requires Inv(s) && RunBy(s.shake.once, owner) && After(s, run).Some?
    ensures RunBy(After(s, run).value.shake.once, owner)
    ensures forall e :: e in Events(s, run) ==> Witnessed(After(s, run).value, run, owner, e)
  {
    if run != [] {
      hide Inv, Step, Enabled, BodyEnabled, Witnessed, Learned, RunBy;
      var earlier, step := run[..|run| - 1], run[|run| - 1];
      var before := After(s, earlier).value;
      EventsAreWitnessed(s, owner, earlier);
      AfterKeeps(s, earlier);
      OwnerStays(before, owner, step);
      assert run == earlier + [step];
      forall e | e in Events(s, run)
        ensures Witnessed(Step(before, step), run, owner, e)
      {
        if e in Events(s, earlier) {
          WitnessStays(before, earlier, owner, e, step);
        } else {
          LearnedIsWitnessed(before, owner, earlier, e, step.choice);
        }
      }
    }
  }

  /** `e` is how a report or a refusal becomes an answer. */
  predicate Appears(e: Event, choice: Choice) {
    (choice.Told? && e.Asked? && e.reported == choice.report) || (choice.Hear? && e == Verdict(choice.error))
  }

  /** Whatever report or refusal occurs in a run is an answer its block gets. */
  lemma {:induction false} ToldIsLearned(s: State, run: seq<Action>, choice: Choice)
    requires After(s, run).Some? && Body(choice) in run && (choice.Told? || choice.Hear?)
    ensures exists e :: e in Events(s, run) && Appears(e, choice)
  {
    hide Step;
    var earlier, step := run[..|run| - 1], run[|run| - 1];
    if step == Body(choice) {
      var before := After(s, earlier).value;
      assert Learned(before, choice) != [] && Appears(Learned(before, choice)[0], choice);
      assert Learned(before, choice)[0] in Events(s, run);
    } else {
      ToldIsLearned(s, earlier, choice);
    }
  }

  /** An account with the transcript of a run names what happened in that run and nothing else. */
  lemma AccountIsOfRun(s: State, owner: nat, run: seq<Action>, a: Account)
    requires Inv(s) && RunBy(s.shake.once, owner) && After(s, run).Some? && Events(s, run) == Transcript(a)
    ensures After(s, run).value.shake.helper == Sent(a.heard.native)
    ensures HasEnded(After(s, run).value, owner, a.ctx.atSelect)
    ensures HasEnded(After(s, run).value, owner, a.ctx.atCallback)
    ensures HasEnded(After(s, run).value, owner, a.ctx.atEnd)
    ensures forall reported :: Body(Told(reported)) in run <==> reported == a.heard.reported
    ensures forall refusal :: Body(Hear(refusal)) in run <==> a.hasReport && refusal == a.heard.refusal
  {
    hide Inv, After, Events, RunBy;
    EventsAreWitnessed(s, owner, run);
    var end := After(s, run).value;
    var t := Transcript(a);
    assert t[0] == Outcome(a.heard.native, a.ctx.atSelect) && t[1] == Asked(a.heard.reported, a.ctx.atCallback);
    assert LastLook(a.ctx.atEnd) == t[|t| - 1] && (a.hasReport ==> t[3] == Verdict(a.heard.refusal));
    assert forall i :: 0 <= i < |t| ==> Witnessed(end, run, owner, t[i]);
    forall choice: Choice | Body(choice) in run && (choice.Told? || choice.Hear?)
      ensures exists e :: e in t && Appears(e, choice)
    {
      ToldIsLearned(s, run, choice);
    }
  }

  // ----- what the sequential block hears, some run of the machine hears -----

  /** The block stands at `pc`; `ended` is what its context has come to. */
  predicate Stands(s: State, owner: nat, pc: Pc, err: Option<Error>, complete: bool, ended: Option<ContextError>,
                   hasReport: bool)
  {
    s.shake.once == Running(owner, pc) && s.shake.helper.Sent? && s.shake.err == err && !s.shake.done
    && s.shake.complete == complete && s.Admits() == hasReport
    && owner in s.threads && s.threads[owner].op.ShakeOp?
    && s.threads[owner].ctx == if ended.None? then Live else Ended(ended.value)
  }

  /** The block's next step, in the machine. */
  lemma Advance(from: State, run: seq<Action>, s: State, choice: Choice) returns (more: seq<Action>, next: State)
    requires After(from, run) == Some(s) && s.shake.once.Running? && s.shake.once.owner in s.threads
    requires BodyEnabled(s.shake, s.OwnerContext(), choice)
    ensures After(from, more) == Some(next)
    ensures next.shake == BodyNext(s.shake, s.OwnerContext(), s.hasHandle, s.Admits(), choice)
    ensures next.Admits() == s.Admits() && (next.shake.once.Running? ==> next.threads == s.threads)
    ensures Events(from, more) == Events(from, run) + Learned(s, choice)
  {
    hide BodyNext, BodyEnabled, Learned;
    more, next := Extend(from, run, s, Body(choice));
    EventsExtend(from, run, Body(choice));
  }

  /** Time passes at the same place: the context may have ended since it was last asked. */
  lemma Wait(from: State, run: seq<Action>, s: State, owner: nat, pc: Pc, err: Option<Error>, complete: bool,
             ended: Option<ContextError>, now: Option<ContextError>, hasReport: bool)
    returns (more: seq<Action>, next: State)
    requires After(from, run) == Some(s) && Stands(s, owner, pc, err, complete, ended, hasReport)
    requires ended.Some? ==> now == ended
    ensures After(from, more) == Some(next) && Stands(next, owner, pc, err, complete, now, hasReport)
    ensures next.shake == s.shake && Events(from, more) == Events(from, run)
  {
    more, next := run, s;
    if ended != now {
      more, next := Extend(from, run, s, Cancel(owner, now.value));
      EventsExtend(from, run, Cancel(owner, now.value));
    }
  }

  /** From the select to the call that captures the state. */
  lemma ToStateCall(s: State, owner: nat, ctx: TlsConn.Polls, heard: TlsConn.Heard, hasReport: bool)
    returns (run: seq<Action>, next: State, err: Option<Error>)
    requires ctx.Valid() && Stands(s, owner, Select, None, false, None, hasReport)
    requires s.shake.helper == Sent(heard.native)
    ensures After(s, run) == Some(next) && Stands(next, owner, StateCall, err, false, ctx.atCallback, hasReport)
    ensures err == TlsConn.EarlyError(ctx, heard)
    ensures Events(s, run) == [Outcome(heard.native, ctx.atSelect), Asked(heard.reported, ctx.atCallback)]
  {
    run, next := Wait(s, [], s, owner, Select, None, false, None, ctx.atSelect, hasReport);
    run, next := Advance(s, run, next, Go);
    err := next.shake.err;
    run, next := Wait(s, run, next, owner, CallbackCheck, err, false, ctx.atSelect, ctx.atCallback, hasReport);
    run, next := Advance(s, run, next, Told(heard.reported));
    err := next.shake.err;
  }

  /** Capturing and publishing the state. */
  lemma ToFinalCheck(from: State, run: seq<Action>, s: State, owner: nat, err: Option<Error>,
                     ended: Option<ContextError>, refusal: Option<nat>, hasReport: bool)
    returns (more: seq<Action>, next: State, third: Option<Error>)
    requires After(from, run) == Some(s) && Stands(s, owner, StateCall, err, false, ended, hasReport)
    ensures After(from, more) == Some(next) && Stands(next, owner, FinalCheck, third, third.None?, ended, hasReport)
    ensures third == if err.Some? then err
                     else if !hasReport then Some(ConnectionClosed)
                     else if refusal.Some? then Some(VerifyCallback(refusal.value))
                     else None
    ensures Events(from, more)
            == Events(from, run) + [Reached(hasReport)] + if hasReport then [Verdict(refusal)] else []
  {
    more, next := Advance(from, run, s, Go);
    if hasReport {
      more, next := Advance(from, more, next, Go);
      more, next := Advance(from, more, next, Hear(refusal));
    }
    third := next.shake.err;
  }

  /** Marking the handshake as done and leaving the block. */
  lemma ToFinished(from: State, run: seq<Action>, s: State) returns (more: seq<Action>, end: State)
    requires After(from, run) == Some(s) && s.shake.once.Running? && s.shake.once.owner in s.threads
    requires s.shake.once.pc.Mark? && !s.shake.done
    ensures After(from, more) == Some(end) && end.shake.once.Finished? && Events(from, more) == Events(from, run)
    ensures end.shake.err == s.shake.err && end.shake.complete == s.shake.complete
    ensures end.shake.done == end.shake.err.None?
  {
    more, end := Advance(from, run, s, Go);
    more, end := Advance(from, more, end, Go);
  }

  /** The last look at the context, and the end of the block. */
  lemma ToEnd(from: State, run: seq<Action>, s: State, owner: nat, third: Option<Error>, ended: Option<ContextError>,
              hasReport: bool)
    returns (more: seq<Action>, end: State)
    requires After(from, run) == Some(s) && Stands(s, owner, FinalCheck, third, third.None?, ended, hasReport)
    ensures After(from, more) == Some(end) && end.shake.once.Finished?
    ensures end.shake.err == if third.None? && ended.Some? then Some(Context(ended.value)) else third
    ensures end.shake.done == end.shake.complete == end.shake.err.None?
    ensures Events(from, more) == Events(from, run) + [LastLook(ended)]
  {
    more, end := Advance(from, run, s, Go);
    if third.None? && ended.Some? {
      more, end := Advance(from, more, end, Go);
    }
    more, end := ToFinished(from, more, end);
  }

  /** Whatever the sequential block hears, some run of the machine hears just that and ends with the error it caches. */
  lemma BlockIsARun(s: State, owner: nat, a: Account) returns (run: seq<Action>, end: State)
    requires a.ctx.Valid() && Stands(s, owner, Select, None, false, None, a.hasReport)
    requires s.shake.helper == Sent(a.heard.native)
    ensures After(s, run) == Some(end) && end.shake.once.Finished?
    ensures Events(s, run) == Transcript(a) && end.shake.err == a.Error()
    ensures end.shake.done == end.shake.complete == end.shake.err.None?
  {
    hide Stands, After, Events, TlsConn.FirstError, TlsConn.EarlyError;
    var ctx, heard, hasReport := a.ctx, a.heard, a.hasReport;
    var err, third;
    run, end, err := ToStateCall(s, owner, ctx, heard, hasReport);
    run, end, third := ToFinalCheck(s, run, end, owner, err, ctx.atCallback, heard.refusal, hasReport);
    run, end := Wait(s, run, end, owner, FinalCheck, third, third.None?, ctx.atCallback, ctx.atEnd, hasReport);
    assert Events(s, run) == UpToCapture(a);
    run, end := ToEnd(s, run, end, owner, third, ctx.atEnd, hasReport);
  }

  // ----- what a run of the machine hears, the sequential block hears -----

  /** The block's context has come to what it said when it was last asked. */
  predicate Said(s: State, poll: Option<ContextError>) {
    poll.Some? ==> s.OwnerContext() == Ended(poll.value)
  }

  /** Where the block stands, its cached error is the one the sequential block has there. */
  predicate Fits(s: State, a: Account) {
    a.ctx.Valid()
    && match s.shake.once
       case Fresh => false
       case Finished => s.shake.err == a.Error()
       case Running(_, pc) =>
         match pc
         case Entry => false
         case Select => true
         case Join => true
         case CallbackCheck => s.shake.err == TlsConn.FirstError(a.ctx, a.heard) && Said(s, a.ctx.atSelect)
         case StateCall => s.shake.err == TlsConn.EarlyError(a.ctx, a.heard) && Said(s, a.ctx.atCallback)
         case Snapshot(_) =>
           a.hasReport && s.shake.err == TlsConn.EarlyError(a.ctx, a.heard) && Said(s, a.ctx.atCallback)
         case Publish(_) =>
           a.hasReport && s.shake.err == TlsConn.EarlyError(a.ctx, a.heard) && Said(s, a.ctx.atCallback)
         case FinalCheck =>
           s.shake.err == TlsConn.CapturedError(a.ctx, a.hasReport, a.heard) && Said(s, a.ctx.atCallback)
         case _ => s.shake.err == a.Error()
  }

  /** The part of the transcript that lies behind the block where it stands. */
  function SoFar(once: Once, a: Account): seq<Event> {
    match once
    case Fresh => []
    case Finished => Transcript(a)
    case Running(_, pc) =>
      match pc
      case Entry => []
      case Select => []
      case Join => []
      case CallbackCheck => Chosen(a)
      case StateCall => Early(a)
      case Snapshot(_) => Early(a) + [Reached(a.hasReport)]
      case Publish(_) => Early(a) + [Reached(a.hasReport)]
      case FinalCheck => UpToCapture(a)
      case _ => Transcript(a)
  }

  /** The account after the block's next step: what that step asks or hears is entered, later answers are left open. */
  function Entered(s: State, a: Account, choice: Choice): Account
    requires BodyEnabled(s.shake, s.OwnerContext(), choice)
  {
    var now := Poll(s.OwnerContext());
    match s.shake.once.pc
    case Select =>
      if choice.SeeCancel? then a
      else a.(ctx := TlsConn.Polls(now, now, now), heard := TlsConn.Heard(s.shake.helper.outcome, None, None))
    case Join => a.(ctx := TlsConn.Polls(now, now, now), heard := TlsConn.Heard(s.shake.helper.outcome, None, None))
    case CallbackCheck =>
      a.(ctx := TlsConn.Polls(a.ctx.atSelect, now, now), heard := a.heard.(reported := choice.report, refusal := None))
    case StateCall => a.(hasReport := s.Admits())
    case Publish(_) => a.(heard := a.heard.(refusal := choice.error))
    case FinalCheck => a.(ctx := TlsConn.Polls(a.ctx.atSelect, a.ctx.atCallback, now))
    case _ => a
  }

  lemma BodyFits(s: State, a: Account, choice: Choice)
    requires Inv(s) && Fits(s, a) && Enabled(s, Body(choice))
    ensures Fits(BodyStep(s, choice), Entered(s, a, choice))
  {
    hide ThreadsInv, TrafficInv, CloseInv, FlightInv, HelperInv;
  }

  /** A step of the block makes the part behind it longer by what it tells. */
  predicate Grows(s: State, a: Account, choice: Choice)
    requires BodyEnabled(s.shake, s.OwnerContext(), choice)
  {
    SoFar(BodyNext(s.shake, s.OwnerContext(), s.hasHandle, s.Admits(), choice).once, Entered(s, a, choice))
    == SoFar(s.shake.once, a) + Learned(s, choice)
  }

  lemma GrowsEarly(s: State, a: Account, choice: Choice)
    requires BodyEnabled(s.shake, s.OwnerContext(), choice)
    requires s.shake.once.pc.Select? || s.shake.once.pc.Join? || s.shake.once.pc.CallbackCheck?
    ensures Grows(s, a, choice)
  {
  }

  lemma GrowsAtCapture(s: State, a: Account, choice: Choice)
    requires BodyEnabled(s.shake, s.OwnerContext(), choice)
    requires s.shake.once.pc.StateCall? || (a.hasReport && (s.shake.once.pc.Snapshot? || s.shake.once.pc.Publish?))
    ensures Grows(s, a, choice)
  {
  }

  lemma GrowsLate(s: State, a: Account, choice: Choice)
    requires BodyEnabled(s.shake, s.OwnerContext(), choice)
    requires Published(s.shake.once.pc)
    ensures Grows(s, a, choice)
  {
  }

  lemma BodyGrows(s: State, a: Account, choice: Choice)
    requires Fits(s, a) && BodyEnabled(s.shake, s.OwnerContext(), choice)
    ensures Grows(s, a, choice)
  {
    hide Grows, TlsConn.FirstError, TlsConn.EarlyError, TlsConn.CapturedError, TlsConn.BlockError, Said;
    if PastSelect(s.shake.once.pc) && !s.shake.once.pc.CallbackCheck? {
      if Published(s.shake.once.pc) {
        GrowsLate(s, a, choice);
      } else {
        GrowsAtCapture(s, a, choice);
      }
    } else {
      GrowsEarly(s, a, choice);
    }
  }

  lemma OtherFits(s: State, a: Account, step: Action)
    requires Inv(s) && Fits(s, a) && Enabled(s, step) && !step.Body?
    ensures Fits(Step(s, step), a) && SoFar(Step(s, step).shake.once, a) == SoFar(s.shake.once, a)
  {
    hide ThreadsInv, TrafficInv, CloseInv, FlightInv, HelperInv, IoPlace, IoTraffic, CloseNext;
  }

  lemma {:induction false} RunFits(s: State, a: Account, more: seq<Action>) returns (b: Account)
    requires Inv(s) && Fits(s, a) && SoFar(s.shake.once, a) == [] && After(s, more).Some?
    ensures var end := After(s, more).value;
            Fits(end, b) && Events(s, more) == SoFar(end.shake.once, b)
  {
    b := a;
    if more != [] {
      hide Inv, Fits, Step, Enabled, BodyStep, SoFar, Learned, Entered;
      var earlier, step := more[..|more| - 1], more[|more| - 1];
      var before := After(s, earlier).value;
      b := RunFits(s, a, earlier);
      AfterKeeps(s, earlier);
      if step.Body? {
        BodyIsEnabled(before, step.choice);
        BodyFits(before, b, step.choice);
        BodyGrows(before, b, step.choice);
        b := Entered(before, b, step.choice);
      } else {
        OtherFits(before, b, step);
      }
    }
  }

  lemma BodyIsEnabled(s: State, choice: Choice)
    requires Enabled(s, Body(choice))
    ensures s.shake.once.Running? && BodyEnabled(s.shake, s.OwnerContext(), choice)
    ensures Step(s, Body(choice)) == BodyStep(s, choice)
    ensures BodyStep(s, choice).shake == BodyNext(s.shake, s.OwnerContext(), s.hasHandle, s.Admits(), choice)
  {
  }

  /**
   However the goroutines interleave from the select on, what the block asks and hears in the run is
   a whole transcript of the sequential block, and it ends with the error that one computes from it.
   */
  lemma RunIsABlock(s: State, more: seq<Action>) returns (a: Account)
    requires Inv(s) && s.shake.once.Running? && s.shake.once.pc.Select?
    requires After(s, more).Some? && After(s, more).value.shake.once.Finished?
    ensures a.ctx.Valid() && Events(s, more) == Transcript(a)
    ensures var end := After(s, more).value;
            end.shake.err == a.Error() && (end.shake.complete <==> a.Error().None?)
            && end.shake.helper == Sent(a.heard.native) && HasEnded(end, s.shake.once.owner, a.ctx.atEnd)
    ensures forall reported :: Body(Told(reported)) in more <==> reported == a.heard.reported
    ensures forall refusal :: Body(Hear(refusal)) in more <==> a.hasReport && refusal == a.heard.refusal
  {
    a := Account(TlsConn.BACKGROUND, false, TlsConn.Heard(None, None, None));
    a := RunFits(s, a, more);
    AfterKeeps(s, more);
    AccountIsOfRun(s, s.shake.once.owner, more, a);
  }
}
