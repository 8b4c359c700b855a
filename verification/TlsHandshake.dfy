/**
 One connection used by any number of goroutines at once: a handshake that runs once in a helper
 goroutine while its caller waits for it or for cancellation, reads and writes that start with
 that handshake, and Close, which stops new native calls and waits for the running ones. One
 action is one step another goroutine can come between.
 */
module TlsHandshake {
  import opened Results

  // ----- state -----

  datatype ContextError = Canceled | DeadlineExceeded

  datatype Context = NoContext | Live | Ended(cause: ContextError)

  /** A callback's error; `final` if it wraps a context error or is a handshake error already. */
  datatype CallbackReport = CallbackReport(code: nat, final: bool)

  datatype Error =
    | NoContextGiven | NoHandle | ConnectionClosed | ErrClosed | EndOfStream | ShortWrite
    | Context(cause: ContextError)
    | Native(code: nat)
    | Callback(report: CallbackReport)
    | VerifyCallback(code: nat)
    | Handshake(reason: Error)

  datatype Op = ShakeOp | ReadOp | WriteOp | CloseOp

  datatype Place =
    | Arrived
    | InBody
    | IoStart | IoWait | IoHeld | IoLoop | IoNative
    | InClose
    | Returned(result: Option<Error>)

  /** `left` is how many octets a read has room for or a write has still to send. */
  datatype Thread = Thread(op: Op, ctx: Context, place: Place, left: nat)

  /** Where the goroutine running the handshake block is. */
  datatype Pc =
    | Entry | Select | Join | CallbackCheck
    | StateCall | Snapshot(success: bool) | Publish(success: bool)
    | FinalCheck | Withdraw | Mark | Leave

  datatype Once = Fresh | Running(owner: nat, pc: Pc) | Finished

  datatype Helper = NotSpawned | Spawned | InNative | Sent(outcome: Option<Error>)

  /** The once block of the handshake and what it caches; `complete` is the published flag. */
  datatype Shake = Shake(once: Once, helper: Helper, err: Option<Error>, done: bool, complete: bool, starts: nat)

  datatype ClosePc = SetClosed | Halt | CloseRaw | CloseHandle | CloseContext

  datatype CloseOnce = CloseFresh | Closing(closer: nat, cpc: ClosePc, first: Option<Error>) | CloseFinished

  datatype Close = Close(once: CloseOnce, closed: bool, stopped: bool, freed: bool, err: Option<Error>)

  /** Who is inside a native call, as counted by the wait group of the native connection. */
  datatype Actor = HelperCall | SnapshotCall | IoCall(id: nat)

  datatype Traffic = Traffic(inflight: set<Actor>, readLock: Option<nat>, writeLock: Option<nat>)

  datatype State = State(hasHandle: bool, threads: map<nat, Thread>, shake: Shake, close: Close, io: Traffic) {
    /** Whether the native connection lets a call begin. */
    predicate Admits() {
      hasHandle && !close.stopped && !close.freed
    }

    /** The context the handshake block runs under. */
    function OwnerContext(): Context {
      if shake.once.Running? && shake.once.owner in threads then threads[shake.once.owner].ctx else NoContext
    }
  }

  function Initial(hasHandle: bool): State {
    State(hasHandle, map[], Shake(Fresh, NotSpawned, None, false, false, 0),
          Close(CloseFresh, false, false, false, None), Traffic({}, None, None))
  }

  function Moved(threads: map<nat, Thread>, id: nat, place: Place): map<nat, Thread>
    requires id in threads
  {
    threads[id := threads[id].(place := place)]
  }

  /** What a caller of the handshake is told. */
  function Report(err: Option<Error>): (r: Option<Error>)
    ensures r.None? <==> err.None?
  {
    match err
    case None => None
    case Some(Context(_)) => err
    case Some(VerifyCallback(_)) => err
    case Some(Callback(report)) => if report.final then err else Some(Handshake(Callback(report)))
    case Some(e) => Some(Handshake(e))
  }

  function OfNative(outcome: Option<nat>): Option<Error> {
    if outcome.None? then None else Some(Native(outcome.value))
  }

  // ----- the handshake block -----

  datatype Choice = Go | SeeCancel | Told(report: Option<CallbackReport>) | Hear(error: Option<nat>)

  predicate BodyEnabled(k: Shake, ctx: Context, choice: Choice) {
    k.once.Running?
    && match k.once.pc
       case Select => (choice.Go? && k.helper.Sent?) || (choice.SeeCancel? && ctx.Ended?)
       case Join => choice.Go? && k.helper.Sent?
       case CallbackCheck => choice.Told?
       case Publish(_) => choice.Hear?
       case _ => choice.Go?
  }

  function At(k: Shake, pc: Pc): Shake
    requires k.once.Running?
  {
    k.(once := k.once.(pc := pc))
  }

  function BodyNext(k: Shake, ctx: Context, hasHandle: bool, admits: bool, choice: Choice): Shake
    requires BodyEnabled(k, ctx, choice)
  {
    match k.once.pc
    case Entry =>
      if ctx.NoContext? then At(k, Leave).(err := Some(NoContextGiven))
      else if k.done then At(k, Leave)
      else if !hasHandle then At(k, Leave).(err := Some(NoHandle))
      else At(k, Select).(helper := Spawned)
    case Select =>
      if choice.SeeCancel? then At(k, Join)
      else At(k, CallbackCheck).(err := if ctx.Ended? then Some(Context(ctx.cause)) else k.helper.outcome)
    case Join => At(k, CallbackCheck).(err := if ctx.Ended? then Some(Context(ctx.cause)) else None)
    case CallbackCheck =>
      if choice.report.Some? && k.err.Some? && !ctx.Ended?
      then At(k, StateCall).(err := Some(Callback(choice.report.value)))
      else At(k, StateCall)
    case StateCall =>
      if admits then At(k, Snapshot(k.err.None?))
      else At(k, FinalCheck).(err := if k.err.None? then Some(ConnectionClosed) else k.err)
    case Snapshot(success) => At(k, Publish(success))
    case Publish(success) =>
      var verdict := if success && choice.error.Some? then Some(VerifyCallback(choice.error.value)) else None;
      At(k, FinalCheck).(complete := success && verdict.None?, err := if k.err.None? then verdict else k.err)
    case FinalCheck =>
      if k.err.None? && ctx.Ended? then At(k, Withdraw).(err := Some(Context(ctx.cause))) else At(k, Mark)
    case Withdraw => At(k, Mark).(complete := false)
    case Mark => if k.err.None? then At(k, Leave).(done := true) else At(k, Leave)
    case Leave => k.(once := Finished)
  }

  function BodyStep(s: State, choice: Choice): State
    requires BodyEnabled(s.shake, s.OwnerContext(), choice) && s.shake.once.owner in s.threads
  {
    var k, owner := s.shake, s.shake.once.owner;
    var next := BodyNext(k, s.OwnerContext(), s.hasHandle, s.Admits(), choice);
    var inflight :=
      if k.once.pc.StateCall? && s.Admits() then s.io.inflight + {SnapshotCall}
      else if k.once.pc.Snapshot? then s.io.inflight - {SnapshotCall}
      else s.io.inflight;
    s.(shake := next, io := s.io.(inflight := inflight),
       threads := if next.once.Finished? then Moved(s.threads, owner, Arrived) else s.threads)
  }

  // ----- the helper goroutine -----

  function HelperBegun(s: State): State {
    if s.Admits() then
      s.(shake := s.shake.(helper := InNative, starts := s.shake.starts + 1),
         io := s.io.(inflight := s.io.inflight + {HelperCall}))
    else s.(shake := s.shake.(helper := Sent(Some(ConnectionClosed))))
  }

  function HelperEnded(s: State, outcome: Option<nat>): State {
    s.(shake := s.shake.(helper := Sent(OfNative(outcome))), io := s.io.(inflight := s.io.inflight - {HelperCall}))
  }

  // ----- readers and writers -----

  /** What a native read or write comes back with: a count and an error. */
  datatype IoChoice = Next | Done(n: nat, error: Option<nat>)

  function LockOf(io: Traffic, op: Op): Option<nat> {
    if op.ReadOp? then io.readLock else io.writeLock
  }

  function Locked(io: Traffic, op: Op, holder: Option<nat>): Traffic {
    if op.ReadOp? then io.(readLock := holder) else io.(writeLock := holder)
  }

  predicate IoEnabled(t: Thread, io: Traffic, choice: IoChoice) {
    match t.place
    case IoStart => choice.Next?
    case IoWait => choice.Next? && LockOf(io, t.op).None?
    case IoHeld => choice.Next?
    case IoLoop => choice.Next?
    case IoNative => choice.Done? && choice.n <= t.left
    case _ => false
  }

  /** What a closed connection answers: the end of the stream to readers, an error to writers. */
  function Refused(op: Op, toWriter: Error): Place {
    Returned(Some(if op.ReadOp? then EndOfStream else toWriter))
  }

  /** Where the goroutine goes; it gives its lock back exactly when it returns from a place that holds it. */
  function IoPlace(t: Thread, closed: bool, admits: bool, choice: IoChoice): Place
    requires DoingIo(t) && (t.place.IoNative? ==> choice.Done?)
  {
    match t.place
    case IoStart => if closed then Refused(t.op, ErrClosed) else IoWait
    case IoWait => IoHeld
    case IoHeld => if closed then Refused(t.op, ErrClosed) else IoLoop
    case IoLoop =>
      if t.left == 0 then Returned(None) else if admits then IoNative else Refused(t.op, ConnectionClosed)
    case IoNative =>
      if choice.error.Some? then Returned(if t.op.ReadOp? && closed then Some(EndOfStream) else OfNative(choice.error))
      else if t.op.ReadOp? then Returned(None)
      else if choice.n == 0 then Returned(Some(ShortWrite))
      else IoLoop
  }

  /** Octets a native write has sent are not sent again. */
  function IoLeft(t: Thread, choice: IoChoice): nat {
    if t.place.IoNative? && choice.Done? && choice.n <= t.left then t.left - choice.n else t.left
  }

  function IoTraffic(t: Thread, id: nat, io: Traffic, to: Place): Traffic {
    var counted :=
      if t.place.IoNative? then io.(inflight := io.inflight - {IoCall(id)})
      else if to.IoNative? then io.(inflight := io.inflight + {IoCall(id)})
      else io;
    if t.place.IoWait? then Locked(counted, t.op, Some(id))
    else if HoldsLock(t) && to.Returned? then Locked(counted, t.op, None)
    else counted
  }

  function IoStep(s: State, id: nat, choice: IoChoice): State
    requires id in s.threads && IoEnabled(s.threads[id], s.io, choice)
  {
    var t := s.threads[id];
    var to := IoPlace(t, s.close.closed, s.Admits(), choice);
    s.(threads := s.threads[id := t.(place := to, left := IoLeft(t, choice))], io := IoTraffic(t, id, s.io, to))
  }

  // ----- Close -----

  predicate CloseEnabled(c: Close, hasHandle: bool, inflight: set<Actor>) {
    c.once.Closing? && (c.once.cpc.CloseHandle? && hasHandle ==> inflight == {})
  }

  function CloseNext(c: Close, hasHandle: bool, error: Option<nat>): Close
    requires c.once.Closing?
  {
    var first := if c.once.first.None? then OfNative(error) else c.once.first;
    match c.once.cpc
    case SetClosed => c.(closed := true, once := c.once.(cpc := Halt))
    case Halt => c.(stopped := c.stopped || hasHandle, once := c.once.(cpc := CloseRaw))
    case CloseRaw => c.(once := c.once.(cpc := CloseHandle, first := first))
    case CloseHandle =>
      if hasHandle then c.(freed := true, once := c.once.(cpc := CloseContext, first := first))
      else c.(once := c.once.(cpc := CloseContext))
    case CloseContext => c.(err := first, once := CloseFinished)
  }

  function CloseStep(s: State, error: Option<nat>): State
    requires CloseEnabled(s.close, s.hasHandle, s.io.inflight) && s.close.once.closer in s.threads
  {
    var next := CloseNext(s.close, s.hasHandle, error);
    s.(close := next,
       threads := if next.once.CloseFinished? then Moved(s.threads, s.close.once.closer, Arrived) else s.threads)
  }

  // ----- runs -----

  datatype Action =
    | Call(id: nat, op: Op, ctx: Context, size: nat)
    | Cancel(id: nat, cause: ContextError)
    | Proceed(id: nat)
    | Body(choice: Choice)
    | HelperBegin
    | HelperEnd(outcome: Option<nat>)
    | Io(id: nat, io: IoChoice)
    | Shut(error: Option<nat>)

  /** At sync.Once: the first caller runs the block, the others wait until it has ended. */
  predicate CanProceed(s: State, id: nat) {
    id in s.threads && s.threads[id].place.Arrived?
    && if s.threads[id].op.CloseOp? then !s.close.once.Closing? else !s.shake.once.Running?
  }

  function Proceeded(s: State, id: nat): State
    requires CanProceed(s, id)
  {
    var op := s.threads[id].op;
    if op.CloseOp? then
      if s.close.once.CloseFresh? then
        s.(threads := Moved(s.threads, id, InClose), close := s.close.(once := Closing(id, SetClosed, None)))
      else s.(threads := Moved(s.threads, id, Returned(s.close.err)))
    else if s.shake.once.Fresh? then
      s.(threads := Moved(s.threads, id, InBody), shake := s.shake.(once := Running(id, Entry)))
    else if op.ShakeOp? || s.shake.err.Some? then s.(threads := Moved(s.threads, id, Returned(Report(s.shake.err))))
    else s.(threads := Moved(s.threads, id, IoStart))
  }

  predicate Enabled(s: State, a: Action) {
    match a
    case Call(id, _, _, _) => id !in s.threads
    case Cancel(id, _) => id in s.threads && s.threads[id].ctx.Live? && s.threads[id].op.ShakeOp?
    case Proceed(id) => CanProceed(s, id)
    case Body(choice) => BodyEnabled(s.shake, s.OwnerContext(), choice) && s.shake.once.owner in s.threads
    case HelperBegin => s.shake.helper.Spawned?
    case HelperEnd(_) => s.shake.helper.InNative?
    case Io(id, io) => id in s.threads && IoEnabled(s.threads[id], s.io, io)
    case Shut(_) => CloseEnabled(s.close, s.hasHandle, s.io.inflight) && s.close.once.closer in s.threads
  }

  function Caller(op: Op, ctx: Context, size: nat): Thread {
    Thread(op, if op.ShakeOp? then ctx else Live, Arrived, size)
  }

  /** Reads and writes handshake under a context that never ends. */
  function Step(s: State, a: Action): State
    requires Enabled(s, a)
  {
    match a
    case Call(id, op, ctx, size) => s.(threads := s.threads[id := Caller(op, ctx, size)])
    case Cancel(id, cause) => s.(threads := s.threads[id := s.threads[id].(ctx := Ended(cause))])
    case Proceed(id) => Proceeded(s, id)
    case Body(choice) => BodyStep(s, choice)
    case HelperBegin => HelperBegun(s)
    case HelperEnd(outcome) => HelperEnded(s, outcome)
    case Io(id, io) => IoStep(s, id, io)
    case Shut(error) => CloseStep(s, error)
  }

  /** The state after some actions, if each was possible when it came. */
  function After(s: State, actions: seq<Action>): Option<State> {
    if actions == [] then Some(s)
    else
      var before := After(s, actions[..|actions| - 1]);
      var a := actions[|actions| - 1];
      if before.Some? && Enabled(before.value, a) then Some(Step(before.value, a)) else None
  }

  // ----- the invariant -----

  predicate PastSelect(pc: Pc) {
    !pc.Entry? && !pc.Select? && !pc.Join?
  }

  predicate Published(pc: Pc) {
    pc.FinalCheck? || pc.Withdraw? || pc.Mark? || pc.Leave?
  }

  /** The outcome once the block has ended. */
  predicate Settled(k: Shake) {
    (k.helper.NotSpawned? || k.helper.Sent?) && (k.err.None? <==> k.done) && (k.err.None? <==> k.complete)
    && (k.done || (k.err.Some? && k.err.value.Context?) ==> k.helper.Sent?)
  }

  /** The handshake block against the helper and the cached outcome. */
  predicate OnceInv(k: Shake) {
    if k.once.Fresh? then k.helper.NotSpawned? && k.err.None? && !k.done && !k.complete
    else if k.once.Finished? || k.once.pc.Leave? then Settled(k)
    else
      var pc := k.once.pc;
      !k.done
      && (pc.Entry? ==> k.helper.NotSpawned? && k.err.None? && !k.complete)
      && (pc.Select? || pc.Join? ==> !k.helper.NotSpawned? && k.err.None? && !k.complete)
      && (PastSelect(pc) ==> k.helper.Sent?)
      && (PastSelect(pc) && !Published(pc) ==> !k.complete)
      && (pc.Snapshot? || pc.Publish? ==> pc.success == k.err.None?)
      && (pc.FinalCheck? || pc.Mark? ==> (k.complete <==> k.err.None?))
      && (pc.Withdraw? ==> k.err.Some?)
  }

  /** The native handshake starts at most once, and nothing but its success is a success. */
  predicate HelperInv(k: Shake, hasHandle: bool) {
    (k.helper.NotSpawned? || k.helper.Spawned? ==> k.starts == 0)
    && (k.helper.InNative? ==> k.starts == 1)
    && (k.helper.Sent? ==> k.starts == if k.helper.outcome == Some(ConnectionClosed) then 0 else 1)
    && (k.helper.Sent? && k.helper.outcome.Some?
        ==> k.helper.outcome.value.Native? || k.helper.outcome.value.ConnectionClosed?)
    && (k.helper.Sent? && k.err.None? && (k.once.Finished? || (k.once.Running? && PastSelect(k.once.pc)))
        ==> k.helper.outcome.None?)
    && (!k.helper.NotSpawned? ==> hasHandle)
  }

  /** A context error in the cache is the error of the context the block runs under. */
  predicate ContextInv(k: Shake, ctx: Context) {
    k.once.Running?
    ==> (k.err.Some? && k.err.value.Context? ==> ctx == Ended(k.err.value.cause))
        && (k.once.pc.Withdraw? ==> k.err.Some? && k.err.value.Context?)
        && (k.once.pc.Join? ==> ctx.Ended?)
  }

  /** The life of the native handle. */
  predicate CloseInv(c: Close, hasHandle: bool, inflight: set<Actor>) {
    (c.freed ==> c.stopped && inflight == {})
    && (c.stopped ==> c.closed)
    && (c.once.CloseFresh? ==> !c.closed)
    && (c.once.CloseFinished? ==> c.closed && (hasHandle ==> c.freed))
    && (c.once.Closing?
        ==> var cpc := c.once.cpc;
            (c.closed <==> !cpc.SetClosed?)
            && (c.stopped <==> hasHandle && !cpc.SetClosed? && !cpc.Halt?)
            && (c.freed <==> hasHandle && cpc.CloseContext?))
  }

  /** The native calls of the handshake that are counted as running. */
  predicate FlightInv(inflight: set<Actor>, k: Shake) {
    (HelperCall in inflight <==> k.helper.InNative?)
    && (SnapshotCall in inflight <==> k.once.Running? && k.once.pc.Snapshot?)
  }

  /** Counted native reads and writes, and held locks, belong to goroutines that are there. */
  ghost predicate TrafficInv(io: Traffic, threads: map<nat, Thread>) {
    (forall id :: IoCall(id) in io.inflight ==> id in threads && threads[id].place.IoNative?)
    && (io.readLock.Some? ==> io.readLock.value in threads && threads[io.readLock.value].op.ReadOp?)
    && (io.writeLock.Some? ==> io.writeLock.value in threads && threads[io.writeLock.value].op.WriteOp?)
  }

  predicate OwnersInv(k: Shake, c: Close, threads: map<nat, Thread>) {
    (k.once.Running? ==> k.once.owner in threads) && (c.once.Closing? ==> c.once.closer in threads)
  }

  predicate HoldsLock(t: Thread) {
    t.place.IoHeld? || t.place.IoLoop? || t.place.IoNative?
  }

  predicate DoingIo(t: Thread) {
    t.place.IoStart? || t.place.IoWait? || HoldsLock(t)
  }

  predicate ShakeThreadInv(id: nat, t: Thread, k: Shake) {
    (t.place.InBody? <==> k.once.Running? && k.once.owner == id)
    && (t.place.InBody? ==> !t.op.CloseOp?)
    && (DoingIo(t) ==> (t.op.ReadOp? || t.op.WriteOp?) && k.once.Finished? && k.err.None?)
    && (t.place.Returned? && !t.op.CloseOp?
        ==> k.once.Finished? && (t.op.ShakeOp? || k.err.Some? ==> t.place.result == Report(k.err)))
  }

  predicate CloseThreadInv(id: nat, t: Thread, c: Close) {
    (t.place.InClose? <==> c.once.Closing? && c.once.closer == id)
    && (t.place.InClose? ==> t.op.CloseOp?)
    && (t.place.Returned? && t.op.CloseOp? ==> c.once.CloseFinished? && t.place.result == c.err)
  }

  predicate IoThreadInv(id: nat, t: Thread, io: Traffic) {
    (t.op.ReadOp? ==> (HoldsLock(t) <==> io.readLock == Some(id)))
    && (t.op.WriteOp? ==> (HoldsLock(t) <==> io.writeLock == Some(id)))
    && (t.place.IoNative? ==> IoCall(id) in io.inflight)
    && (t.op.WriteOp? && t.place == Returned(None) ==> t.left == 0)
  }

  ghost predicate ThreadsInv(s: State) {
    forall id :: id in s.threads
                 ==> ShakeThreadInv(id, s.threads[id], s.shake) && CloseThreadInv(id, s.threads[id], s.close)
                     && IoThreadInv(id, s.threads[id], s.io)
  }

  ghost predicate Inv(s: State) {
    OnceInv(s.shake) && HelperInv(s.shake, s.hasHandle) && ContextInv(s.shake, s.OwnerContext())
    && CloseInv(s.close, s.hasHandle, s.io.inflight) && FlightInv(s.io.inflight, s.shake)
    && TrafficInv(s.io, s.threads) && OwnersInv(s.shake, s.close, s.threads) && ThreadsInv(s)
  }

  // ----- every step keeps it -----

  lemma CallKeeps(s: State, id: nat, op: Op, ctx: Context, size: nat)
    requires Inv(s) && id !in s.threads
    ensures Inv(Step(s, Call(id, op, ctx, size)))
  {
    hide OnceInv, HelperInv, ContextInv, CloseInv, FlightInv;
  }

  lemma CancelKeeps(s: State, id: nat, cause: ContextError)
    requires Inv(s) && Enabled(s, Cancel(id, cause))
    ensures Inv(Step(s, Cancel(id, cause)))
  {
    hide OnceInv, HelperInv, CloseInv, FlightInv;
  }

  lemma ProceedCloseKeeps(s: State, id: nat)
    requires Inv(s) && CanProceed(s, id) && s.threads[id].op.CloseOp?
    ensures Inv(Proceeded(s, id))
  {
    hide OnceInv, HelperInv, FlightInv;
  }

  lemma ProceedShakeKeeps(s: State, id: nat)
    requires Inv(s) && CanProceed(s, id) && !s.threads[id].op.CloseOp?
    ensures Inv(Proceeded(s, id))
  {
    hide CloseInv;
  }

  lemma BodyNextKeeps(k: Shake, ctx: Context, hasHandle: bool, admits: bool, choice: Choice)
    requires OnceInv(k) && HelperInv(k, hasHandle) && ContextInv(k, ctx) && BodyEnabled(k, ctx, choice)
    ensures var next := BodyNext(k, ctx, hasHandle, admits, choice);
            OnceInv(next) && HelperInv(next, hasHandle) && ContextInv(next, ctx)
            && (next.once.Finished? <==> k.once.pc.Leave?)
            && (next.once.Running? ==> next.once.owner == k.once.owner)
            && (next.helper.InNative? <==> k.helper.InNative?)
            && (next.once.Running? && next.once.pc.Snapshot? <==> k.once.pc.StateCall? && admits)
  {
  }

  lemma BodyKeeps(s: State, choice: Choice)
    requires Inv(s) && Enabled(s, Body(choice))
    ensures Inv(BodyStep(s, choice))
  {
    BodyNextKeeps(s.shake, s.OwnerContext(), s.hasHandle, s.Admits(), choice);
    hide OnceInv, HelperInv, BodyNext, BodyEnabled;
  }

  lemma HelperKeeps(s: State, outcome: Option<nat>)
    requires Inv(s)
    ensures s.shake.helper.Spawned? ==> Inv(HelperBegun(s))
    ensures s.shake.helper.InNative? ==> Inv(HelperEnded(s, outcome))
  {
  }

  /** Locks and counted calls of everyone but `id` are as they were. */
  ghost predicate SameForOthers(io: Traffic, next: Traffic, id: nat) {
    forall k: nat :: k != id ==> (next.readLock == Some(k) <==> io.readLock == Some(k))
                                 && (next.writeLock == Some(k) <==> io.writeLock == Some(k))
                                 && (IoCall(k) in next.inflight <==> IoCall(k) in io.inflight)
  }

  /** What a read or write step does to its goroutine, its lock and the count of running calls. */
  lemma IoPlaceFacts(t: Thread, id: nat, io: Traffic, closed: bool, admits: bool, choice: IoChoice)
    requires IoEnabled(t, io, choice) && IoThreadInv(id, t, io) && (t.op.ReadOp? || t.op.WriteOp?)
    requires IoCall(id) in io.inflight ==> t.place.IoNative?
    requires (io.readLock == Some(id) ==> t.op.ReadOp?) && (io.writeLock == Some(id) ==> t.op.WriteOp?)
    ensures var to := IoPlace(t, closed, admits, choice);
            var next := IoTraffic(t, id, io, to);
            var moved := t.(place := to, left := IoLeft(t, choice));
            (DoingIo(moved) || to.Returned?)
            && IoThreadInv(id, moved, next)
            && SameForOthers(io, next, id)
            && (IoCall(id) in next.inflight ==> to.IoNative?)
            && (next.readLock == Some(id) ==> t.op.ReadOp?) && (next.writeLock == Some(id) ==> t.op.WriteOp?)
            && (HelperCall in next.inflight <==> HelperCall in io.inflight)
            && (SnapshotCall in next.inflight <==> SnapshotCall in io.inflight)
            && (io.inflight == {} && !admits ==> next.inflight == {})
  {
  }

  lemma IoFacts(s: State, id: nat, choice: IoChoice) returns (next: State)
    requires ThreadsInv(s) && TrafficInv(s.io, s.threads) && Enabled(s, Io(id, choice))
    ensures next == IoStep(s, id, choice) && id in s.threads && s.shake.once.Finished? && s.shake.err.None?
    ensures next.shake == s.shake && next.close == s.close && next.hasHandle == s.hasHandle
    ensures id in next.threads && next.threads == s.threads[id := next.threads[id]]
    ensures var t := next.threads[id];
            t.op == s.threads[id].op && (t.op.ReadOp? || t.op.WriteOp?) && (DoingIo(t) || t.place.Returned?)
            && (IoCall(id) in next.io.inflight ==> t.place.IoNative?)
            && (next.io.readLock == Some(id) ==> t.op.ReadOp?) && (next.io.writeLock == Some(id) ==> t.op.WriteOp?)
    ensures IoThreadInv(id, next.threads[id], next.io) && SameForOthers(s.io, next.io, id)
    ensures HelperCall in next.io.inflight <==> HelperCall in s.io.inflight
    ensures SnapshotCall in next.io.inflight <==> SnapshotCall in s.io.inflight
    ensures s.io.inflight == {} && !s.Admits() ==> next.io.inflight == {}
  {
    IoPlaceFacts(s.threads[id], id, s.io, s.close.closed, s.Admits(), choice);
    hide IoPlace, IoTraffic, IoEnabled, IoThreadInv, SameForOthers;
    next := IoStep(s, id, choice);
  }

  lemma IoThreadsKeep(s: State, id: nat, choice: IoChoice)
    requires ThreadsInv(s) && TrafficInv(s.io, s.threads) && Enabled(s, Io(id, choice))
    ensures ThreadsInv(IoStep(s, id, choice)) && TrafficInv(IoStep(s, id, choice).io, IoStep(s, id, choice).threads)
  {
    var next := IoFacts(s, id, choice);
    hide IoStep, IoEnabled;
    if next.io.readLock.Some? && next.io.readLock.value != id {
      assert s.io.readLock == next.io.readLock;
    }
    if next.io.writeLock.Some? && next.io.writeLock.value != id {
      assert s.io.writeLock == next.io.writeLock;
    }
  }

  lemma IoKeeps(s: State, id: nat, choice: IoChoice)
    requires Inv(s) && Enabled(s, Io(id, choice))
    ensures Inv(IoStep(s, id, choice))
  {
    IoThreadsKeep(s, id, choice);
    var next := IoFacts(s, id, choice);
    hide OnceInv, HelperInv, ThreadsInv, TrafficInv, IoStep, IoEnabled;
  }

  lemma CloseKeeps(s: State, error: Option<nat>)
    requires Inv(s) && Enabled(s, Shut(error))
    ensures Inv(CloseStep(s, error))
  {
    hide OnceInv, HelperInv, FlightInv;
  }

  lemma StepKeeps(s: State, a: Action)
    requires Inv(s) && Enabled(s, a)
    ensures Inv(Step(s, a))
  {
    hide Inv, Proceeded, BodyStep, HelperBegun, HelperEnded, IoStep, CloseStep;
    match a
    case Call(id, op, ctx, size) => CallKeeps(s, id, op, ctx, size);
    case Cancel(id, cause) => CancelKeeps(s, id, cause);
    case Proceed(id) =>
      if s.threads[id].op.CloseOp? {
        ProceedCloseKeeps(s, id);
      } else {
        ProceedShakeKeeps(s, id);
      }
    case Body(choice) => BodyKeeps(s, choice);
    case HelperBegin => HelperKeeps(s, None);
    case HelperEnd(outcome) => HelperKeeps(s, outcome);
    case Io(id, io) => IoKeeps(s, id, io);
    case Shut(error) => CloseKeeps(s, error);
  }

  lemma {:induction false} AfterKeeps(s: State, actions: seq<Action>)
    requires Inv(s) && After(s, actions).Some?
    ensures Inv(After(s, actions).value)
  {
    if actions != [] {
      hide Inv, Step, Enabled;
      AfterKeeps(s, actions[..|actions| - 1]);
      StepKeeps(After(s, actions[..|actions| - 1]).value, actions[|actions| - 1]);
    }
  }

  /** The states one connection can be in, whatever its callers, its peer and its contexts do. */
  ghost predicate Reachable(s: State) {
    exists hasHandle, actions :: After(Initial(hasHandle), actions) == Some(s)
  }

  lemma ReachableInv(s: State)
    requires Reachable(s)
    ensures Inv(s)
  {
    var hasHandle, actions :| After(Initial(hasHandle), actions) == Some(s);
    AfterKeeps(Initial(hasHandle), actions);
  }

  // ----- safety of every interleaving -----

  /** The native handshake starts at most once; success means it started and succeeded. */
  lemma StartsAtMostOnce(s: State)
    requires Reachable(s)
    ensures s.shake.starts <= 1
    ensures s.shake.done ==> s.shake.starts == 1 && s.shake.helper == Sent(None)
  {
    ReachableInv(s);
  }

  /** When the block has ended, the cached error, the done flag and the published flag agree. */
  lemma OutcomesAgree(s: State)
    requires Reachable(s) && s.shake.once.Finished?
    ensures (s.shake.err.None? <==> s.shake.done) && (s.shake.done <==> s.shake.complete)
  {
    ReachableInv(s);
  }

  /**
   No call returns, and no read or write gets past the handshake, while the helper runs; every
   finished call was told the one cached outcome.
   */
  lemma ReturnsAfterHelper(s: State, id: nat)
    requires Reachable(s) && id in s.threads && !s.threads[id].op.CloseOp?
    requires s.threads[id].place.Returned? || DoingIo(s.threads[id])
    ensures s.shake.once.Finished? && !s.shake.helper.Spawned? && !s.shake.helper.InNative?
    ensures DoingIo(s.threads[id]) ==> s.shake.done
    ensures s.threads[id].place.Returned? && s.threads[id].op.ShakeOp?
            ==> s.threads[id].place.result == Report(s.shake.err)
                && (s.threads[id].place.result.None? <==> s.shake.done)
    ensures s.threads[id].place.Returned? && !s.shake.done ==> s.threads[id].place.result.Some?
  {
    ReachableInv(s);
  }

  /** Nobody is inside a native call once the handle is freed, and no such call can begin any more. */
  lemma NoUseAfterFree(s: State, id: nat)
    requires Reachable(s) && s.close.freed
    ensures !s.shake.helper.InNative? && !(s.shake.once.Running? && s.shake.once.pc.Snapshot?)
    ensures id in s.threads ==> !s.threads[id].place.IoNative?
    ensures !s.Admits()
  {
    ReachableInv(s);
  }

  /** Native reads exclude each other, and so do native writes; both come after a successful handshake. */
  lemma OneReaderOneWriter(s: State, i: nat, j: nat)
    requires Reachable(s) && i in s.threads && j in s.threads
    requires s.threads[i].place.IoNative? && s.threads[j].place.IoNative? && s.threads[i].op == s.threads[j].op
    ensures i == j && s.shake.done && !s.close.freed
  {
    ReachableInv(s);
  }

  /** A write that returns no error has nothing left to send. */
  lemma WritesAll(s: State, id: nat)
    requires Reachable(s) && id in s.threads && s.threads[id].op.WriteOp? && s.threads[id].place == Returned(None)
    ensures s.threads[id].left == 0 && s.shake.done
  {
    ReachableInv(s);
  }

  /** Every Close returns the same error, and only after the handle is gone. */
  lemma ClosesAgree(s: State, id: nat)
    requires Reachable(s) && id in s.threads && s.threads[id].op.CloseOp? && s.threads[id].place.Returned?
    ensures s.threads[id].place.result == s.close.err && s.close.closed && (s.hasHandle ==> s.close.freed)
  {
    ReachableInv(s);
  }

  // ----- along a run -----

  /** An outcome is final: whatever happens next, nothing about the handshake changes. */
  lemma {:induction false} OutcomeIsFinal(s: State, more: seq<Action>)
    requires Inv(s) && s.shake.once.Finished? && After(s, more).Some?
    ensures After(s, more).value.shake == s.shake
  {
    if more != [] {
      var before := After(s, more[..|more| - 1]).value;
      OutcomeIsFinal(s, more[..|more| - 1]);
      AfterKeeps(s, more[..|more| - 1]);
      FinalStep(before, more[|more| - 1]);
    }
  }

  lemma FinalStep(s: State, a: Action)
    requires Inv(s) && s.shake.once.Finished? && Enabled(s, a)
    ensures Step(s, a).shake == s.shake
  {
    hide ThreadsInv, TrafficInv, CloseInv, FlightInv, IoPlace, IoTraffic;
  }

  /** The context of the block has ended, and the check that would let it succeed is still ahead. */
  predicate Doomed(s: State) {
    (s.shake.once.Running? && s.OwnerContext().Ended?
     && (s.shake.once.pc.Mark? || s.shake.once.pc.Leave? ==> s.shake.err.Some?))
    || (s.shake.once.Finished? && s.shake.err.Some?)
  }

  lemma DoomedStep(s: State, a: Action)
    requires Inv(s) && Doomed(s) && Enabled(s, a)
    ensures Doomed(Step(s, a))
  {
    hide ThreadsInv, TrafficInv, CloseInv, FlightInv, IoPlace, IoTraffic, CloseNext, HelperInv;
  }

  /** A handshake whose context ends before the last check never succeeds and is never published as complete. */
  lemma {:induction false} CancelledNeverSucceeds(s: State, more: seq<Action>)
    requires Inv(s) && Doomed(s) && After(s, more).Some?
    ensures var end := After(s, more).value;
            Doomed(end) && (end.shake.once.Finished? ==> end.shake.err.Some? && !end.shake.done && !end.shake.complete)
  {
    hide Step, Enabled;
    if more != [] {
      var before := After(s, more[..|more| - 1]).value;
      CancelledNeverSucceeds(s, more[..|more| - 1]);
      AfterKeeps(s, more[..|more| - 1]);
      DoomedStep(before, more[|more| - 1]);
    }
    AfterKeeps(s, more);
  }

  /** The outcome is, or is bound to be, the context's own error. */
  predicate Bound(s: State, cause: ContextError) {
    (s.shake.once.Running? && s.OwnerContext() == Ended(cause)
     && (s.shake.once.pc.Select? || s.shake.once.pc.Join? || s.shake.err == Some(Context(cause))))
    || (s.shake.once.Finished? && s.shake.err == Some(Context(cause)))
  }

  lemma BoundStep(s: State, a: Action, cause: ContextError)
    requires Inv(s) && Bound(s, cause) && Enabled(s, a)
    ensures Bound(Step(s, a), cause)
  {
    hide ThreadsInv, TrafficInv, CloseInv, FlightInv, IoPlace, IoTraffic, CloseNext, HelperInv;
  }

  /**
   Cancelled while the native handshake runs, the call reports the context's error whatever the
   native handshake and the callbacks report, and only after the helper has ended.
   */
  lemma {:induction false} CancellationWins(s: State, more: seq<Action>, cause: ContextError)
    requires Inv(s) && Bound(s, cause) && After(s, more).Some?
    ensures var end := After(s, more).value;
            Bound(end, cause)
            && (end.shake.once.Finished? ==> Report(end.shake.err) == Some(Context(cause)) && end.shake.helper.Sent?)
  {
    hide Step, Enabled;
    if more != [] {
      var before := After(s, more[..|more| - 1]).value;
      CancellationWins(s, more[..|more| - 1], cause);
      AfterKeeps(s, more[..|more| - 1]);
      BoundStep(before, more[|more| - 1], cause);
    }
    AfterKeeps(s, more);
  }

  /** A read or write that Close has overtaken before its last check, or that has failed. */
  predicate Overtaken(s: State, id: nat) {
    s.close.closed && id in s.threads && (s.threads[id].op.ReadOp? || s.threads[id].op.WriteOp?)
    && var place := s.threads[id].place;
       place.Arrived? || place.InBody? || place.IoStart? || place.IoWait? || place.IoHeld?
       || (place.Returned? && place.result.Some?)
  }

  lemma OvertakenStep(s: State, a: Action, id: nat)
    requires Inv(s) && Overtaken(s, id) && Enabled(s, a)
    ensures Overtaken(Step(s, a), id)
  {
    hide TrafficInv, FlightInv, OnceInv, HelperInv, ContextInv;
  }

  /** Once the connection is marked closed, no read or write that has not passed its last check succeeds. */
  lemma {:induction false} LateIoFails(s: State, more: seq<Action>, id: nat)
    requires Inv(s) && Overtaken(s, id) && After(s, more).Some?
    ensures Overtaken(After(s, more).value, id)
    ensures var t := After(s, more).value.threads[id];
            !t.place.IoNative? && (t.place.Returned? ==> t.place.result.Some?)
  {
    hide Step, Enabled, Inv;
    if more != [] {
      var before := After(s, more[..|more| - 1]).value;
      LateIoFails(s, more[..|more| - 1], id);
      AfterKeeps(s, more[..|more| - 1]);
      OvertakenStep(before, more[|more| - 1], id);
    }
  }

  /** One step takes a published completion back, and the block comes to it only with a context that ended. */
  lemma WithdrawnOnlyByCancellation(s: State, a: Action)
    requires Inv(s) && Enabled(s, a) && s.shake.complete
    ensures !Step(s, a).shake.complete <==> a.Body? && s.shake.once.Running? && s.shake.once.pc.Withdraw?
    ensures s.shake.once.Running? && s.shake.once.pc.Withdraw?
            ==> s.OwnerContext().Ended? && s.shake.err == Some(Context(s.OwnerContext().cause))
  {
    hide ThreadsInv, TrafficInv, CloseInv, FlightInv, IoPlace, IoTraffic, CloseNext;
  }

  /** A published completion that the last look at the context has passed, or that is the outcome. */
  predicate Kept(s: State) {
    s.shake.complete && s.shake.err.None?
    && (s.shake.once.Finished? || (s.shake.once.Running? && (s.shake.once.pc.Mark? || s.shake.once.pc.Leave?)))
  }

  lemma KeptStep(s: State, a: Action)
    requires Inv(s) && Kept(s) && Enabled(s, a)
    ensures Kept(Step(s, a))
  {
    hide ThreadsInv, TrafficInv, CloseInv, FlightInv, IoPlace, IoTraffic, CloseNext, HelperInv, ContextInv;
  }

  lemma {:induction false} KeptRun(s: State, more: seq<Action>)
    requires Inv(s) && Kept(s) && After(s, more).Some?
    ensures Kept(After(s, more).value)
  {
    hide Step, Enabled, Kept, Inv;
    if more != [] {
      KeptRun(s, more[..|more| - 1]);
      AfterKeeps(s, more[..|more| - 1]);
      KeptStep(After(s, more[..|more| - 1]).value, more[|more| - 1]);
    }
  }

  /** At its last look at the context the block keeps a published completion or is bound to take it back. */
  lemma LastLook(s: State)
    requires Inv(s) && s.shake.complete && s.shake.once.Running? && s.shake.once.pc.FinalCheck?
    ensures Enabled(s, Body(Go))
    ensures if s.OwnerContext().Ended? then Doomed(Step(s, Body(Go))) else Kept(Step(s, Body(Go)))
  {
    hide ThreadsInv, TrafficInv, CloseInv, FlightInv, HelperInv;
  }

  /**
   Exactly when a published completion stays: the context has not ended when the block looks at it
   for the last time, whatever happens before the block ends and after.
   */
  lemma CompletionStays(s: State, more: seq<Action>)
    requires Inv(s) && s.shake.complete && s.shake.once.Running? && s.shake.once.pc.FinalCheck?
    requires Enabled(s, Body(Go)) && After(Step(s, Body(Go)), more).Some?
    requires After(Step(s, Body(Go)), more).value.shake.once.Finished?
    ensures After(Step(s, Body(Go)), more).value.shake.complete <==> !s.OwnerContext().Ended?
  {
    LastLook(s);
    StepKeeps(s, Body(Go));
    var next := Step(s, Body(Go));
    hide Step, Enabled, Inv, Doomed;
    if s.OwnerContext().Ended? {
      CancelledNeverSucceeds(next, more);
    } else {
      KeptRun(next, more);
    }
  }

  /** Everywhere else: a completion seen after that look stays, one seen while it is taken back does not. */
  lemma SeenCompletion(s: State, more: seq<Action>)
    requires Inv(s) && s.shake.complete && !(s.shake.once.Running? && s.shake.once.pc.FinalCheck?)
    requires After(s, more).Some? && After(s, more).value.shake.once.Finished?
    ensures After(s, more).value.shake.complete <==> !(s.shake.once.Running? && s.shake.once.pc.Withdraw?)
  {
    if s.shake.once.Running? && s.shake.once.pc.Withdraw? {
      CancelledNeverSucceeds(s, more);
    } else {
      KeptRun(s, more);
    }
    hide ThreadsInv, TrafficInv, CloseInv, FlightInv, HelperInv;
  }

  lemma Extend(from: State, actions: seq<Action>, s: State, a: Action) returns (more: seq<Action>, next: State)
    requires After(from, actions) == Some(s) && Enabled(s, a)
    ensures more == actions + [a] && next == Step(s, a) && After(from, more) == Some(next)
  {
    more, next := actions + [a], Step(s, a);
    assert more[..|actions|] == actions;
  }

  lemma NativeRun() returns (run: seq<Action>, s: State)
    ensures After(Initial(true), run) == Some(s) && s.Admits()
    ensures s.threads == map[0 := Thread(ShakeOp, Live, InBody, 0)]
    ensures s.shake == Shake(Running(0, Select), Sent(None), None, false, false, 1)
  {
    var from := Initial(true);
    run, s := Extend(from, [], from, Call(0, ShakeOp, Live, 0));
    run, s := Extend(from, run, s, Proceed(0));
    run, s := Extend(from, run, s, Body(Go));
    run, s := Extend(from, run, s, HelperBegin);
    run, s := Extend(from, run, s, HelperEnd(None));
  }

  /** A native handshake that succeeds, up to the published completion. */
  lemma PublishedRun() returns (run: seq<Action>, s: State)
    ensures After(Initial(true), run) == Some(s) && s.shake.complete
    ensures s.threads == map[0 := Thread(ShakeOp, Live, InBody, 0)]
    ensures s.shake == Shake(Running(0, FinalCheck), Sent(None), None, false, true, 1)
  {
    var from := Initial(true);
    run, s := NativeRun();
    run, s := Extend(from, run, s, Body(Go));
    run, s := Extend(from, run, s, Body(Told(None)));
    run, s := Extend(from, run, s, Body(Go));
    run, s := Extend(from, run, s, Body(Go));
    run, s := Extend(from, run, s, Body(Hear(None)));
  }

  /** A completion someone can already see is taken back when the context ends before the last check. */
  lemma WithdrawalHappens() returns (run: seq<Action>, n: nat, seen: State, ended: State)
    ensures n <= |run| && After(Initial(true), run[..n]) == Some(seen) && seen.shake.complete
    ensures After(Initial(true), run) == Some(ended) && ended.shake.once.Finished? && !ended.shake.complete
  {
    var from := Initial(true);
    var first;
    first, seen := PublishedRun();
    n := |first|;
    run, ended := Extend(from, first, seen, Cancel(0, Canceled));
    run, ended := Extend(from, run, ended, Body(Go));
    run, ended := Extend(from, run, ended, Body(Go));
    run, ended := Extend(from, run, ended, Body(Go));
    run, ended := Extend(from, run, ended, Body(Go));
    assert run[..n] == first;
  }

  // ----- no deadlock -----

  /** The goroutine inside a native call can leave it. */
  lemma ActorMoves(s: State, actor: Actor) returns (a: Action)
    requires Inv(s) && actor in s.io.inflight
    ensures Enabled(s, a) && !a.Call? && !a.Cancel?
  {
    match actor
    case HelperCall => a := HelperEnd(None);
    case SnapshotCall => a := Body(Go);
    case IoCall(id) =>
      assert id in s.threads && s.threads[id].place.IoNative?;
      a := Io(id, Done(0, None));
  }

  lemma BodyMoves(s: State) returns (a: Action)
    requires Inv(s) && s.shake.once.Running?
    ensures Enabled(s, a) && !a.Call? && !a.Cancel?
  {
    hide ThreadsInv, TrafficInv, CloseInv;
    var pc := s.shake.once.pc;
    if pc.Select? || pc.Join? {
      a := if s.shake.helper.Spawned? then HelperBegin
           else if s.shake.helper.InNative? then HelperEnd(None)
           else Body(Go);
    } else {
      a := Body(if pc.CallbackCheck? then Told(None) else if pc.Publish? then Hear(None) else Go);
    }
  }

  lemma IoMoves(s: State, id: nat) returns (a: Action)
    requires Inv(s) && id in s.threads && HoldsLock(s.threads[id])
    ensures Enabled(s, a) && !a.Call? && !a.Cancel?
  {
    hide ThreadsInv, TrafficInv, CloseInv, OnceInv, HelperInv;
    a := Io(id, if s.threads[id].place.IoNative? then Done(0, None) else Next);
  }

  /**
   As long as some call has not returned, some goroutine can take a step, and no new call or
   cancellation is needed for it; the only help from outside is that native calls end.
   */
  lemma NeverStuck(s: State, id: nat) returns (a: Action)
    requires Reachable(s) && id in s.threads && !s.threads[id].place.Returned?
    ensures Enabled(s, a) && !a.Call? && !a.Cancel?
  {
    ReachableInv(s);
    if s.close.once.Closing? {
      if s.io.inflight != {} {
        var actor :| actor in s.io.inflight;
        a := ActorMoves(s, actor);
      } else {
        a := Shut(None);
      }
    } else if s.shake.once.Running? {
      a := BodyMoves(s);
    } else {
      var t := s.threads[id];
      assert ShakeThreadInv(id, t, s.shake) && CloseThreadInv(id, t, s.close);
      if t.place.Arrived? {
        a := Proceed(id);
      } else if t.place.IoWait? && LockOf(s.io, t.op).Some? {
        a := IoMoves(s, LockOf(s.io, t.op).value);
      } else if t.place.IoWait? || t.place.IoStart? {
        a := Io(id, Next);
      } else {
        a := IoMoves(s, id);
      }
    }
  }
}
