/**
 The connection object as one goroutine uses it: capturing and handing out the connection state
 as deep copies, the handshake block in program order, and reads, writes and Close after it.
 */
module TlsConn {
  import opened Results
  import opened Octets
  import opened TlsHandshake

  // ----- certificates and slices of them -----

  type Der = array<byte>

  datatype VerifyError = VerifyError(code: int, depth: int, certificate: Der)

  datatype ErrorView = ErrorView(code: int, depth: int, certificate: bytes)

  ghost function DerObjects(list: array?<Der>): set<object>
    reads list
  {
    if list == null then {} else {list} + set i | 0 <= i < list.Length :: list[i] as object
  }

  ghost predicate HasDers(list: array?<Der>, view: seq<bytes>)
    reads list, DerObjects(list)
  {
    if list == null then view == []
    else |view| == list.Length && forall i :: 0 <= i < list.Length ==> list[i][..] == view[i]
  }

  ghost function ErrorObjects(list: array?<VerifyError>): set<object>
    reads list
  {
    if list == null then {} else {list} + set i | 0 <= i < list.Length :: list[i].certificate as object
  }

  ghost predicate HasErrors(list: array?<VerifyError>, view: seq<ErrorView>)
    reads list, ErrorObjects(list)
  {
    if list == null then view == []
    else
      |view| == list.Length
      && forall i :: 0 <= i < list.Length ==>
           view[i] == ErrorView(list[i].code, list[i].depth, list[i].certificate[..])
  }

  ghost function Lists(list: array?<array?<Der>>): set<object>
    reads list
  {
    if list == null then {} else set i | 0 <= i < list.Length && list[i] != null :: list[i] as object
  }

  ghost function ChainObjects(list: array?<array?<Der>>): set<object>
    reads list, Lists(list)
  {
    if list == null then {}
    else
      {list} + Lists(list)
      + set i, j | 0 <= i < list.Length && list[i] != null && 0 <= j < list[i].Length :: list[i][j] as object
  }

  ghost predicate HasChains(list: array?<array?<Der>>, view: seq<seq<bytes>>)
    reads list, Lists(list), ChainObjects(list)
  {
    if list == null then view == []
    else
      |view| == list.Length
      && forall i :: 0 <= i < list.Length ==>
           HasDers(list[i], view[i])
  }

  method CloneBytes(a: Der) returns (copy: Der)
    ensures fresh(copy) && copy[..] == a[..]
  {
    copy := new byte[a.Length](i requires 0 <= i < a.Length reads a => a[i]);
  }

  method CloneDER(list: array?<Der>, ghost view: seq<bytes>) returns (copy: array?<Der>)
    requires HasDers(list, view)
    ensures HasDers(copy, view) && fresh(DerObjects(copy)) && (copy == null <==> list == null)
    ensures copy != null ==> fresh(copy) && forall i :: 0 <= i < copy.Length ==> fresh(copy[i])
  {
    if list == null {
      return null;
    }
    var blank := new byte[0];
    copy := new Der[list.Length](_ => blank);
    for i := 0 to list.Length
      invariant fresh(copy) && forall j :: 0 <= j < list.Length ==> fresh(copy[j])
      invariant HasDers(list, view)
      invariant forall j :: 0 <= j < i ==> copy[j][..] == view[j]
    {
      copy[i] := CloneBytes(list[i]);
    }
  }

  method CloneChains(list: array?<array?<Der>>, ghost view: seq<seq<bytes>>) returns (copy: array?<array?<Der>>)
    requires HasChains(list, view)
    ensures HasChains(copy, view) && fresh(ChainObjects(copy))
  {
    if list == null || list.Length == 0 {
      return null;
    }
    assert forall j :: 0 <= j < list.Length ==> HasDers(list[j], view[j]);
    hide HasDers, HasChains;
    var lists: seq<array?<Der>> := [];
    ghost var made: set<object> := {};
    for i := 0 to list.Length
      invariant |lists| == i && fresh(made)
      invariant forall j :: i <= j < list.Length ==> HasDers(list[j], view[j])
      invariant forall j :: 0 <= j < i ==> HasDers(lists[j], view[j]) && DerObjects(lists[j]) <= made
    {
      var der := CloneDER(list[i], view[i]);
      lists := lists + [der];
      made := made + DerObjects(der);
    }
    copy := new array?<Der>[|lists|](i requires 0 <= i < |lists| => lists[i]);
    ChainsWithin(copy, view, made + {copy});
  }

  lemma ChainsWithin(list: array<array?<Der>>, view: seq<seq<bytes>>, objects: set<object>)
    requires list in objects && forall j :: 0 <= j < list.Length ==> DerObjects(list[j]) <= objects
    requires |view| == list.Length && forall j :: 0 <= j < list.Length ==> HasDers(list[j], view[j])
    ensures HasChains(list, view) && ChainObjects(list) <= objects
  {
    hide HasDers;
  }

  method CloneErrors(list: array?<VerifyError>, ghost view: seq<ErrorView>) returns (copy: array?<VerifyError>)
    requires HasErrors(list, view)
    ensures HasErrors(copy, view) && fresh(ErrorObjects(copy))
  {
    if list == null || list.Length == 0 {
      return null;
    }
    var blank := new byte[0];
    copy := new VerifyError[list.Length](_ => VerifyError(0, 0, blank));
    for i := 0 to list.Length
      invariant fresh(copy) && copy.Length == list.Length
      invariant forall j :: 0 <= j < list.Length ==> fresh(copy[j].certificate)
      invariant HasErrors(list, view)
      invariant forall j :: 0 <= j < i ==> view[j] == ErrorView(copy[j].code, copy[j].depth, copy[j].certificate[..])
    {
      var certificate := CloneBytes(list[i].certificate);
      copy[i] := list[i].(certificate := certificate);
    }
  }

  // ----- the connection state -----

  datatype Verification = NotPerformed | Passed | Failed

  datatype Session = Session(version: nat, cipherSuite: nat, cipherName: string, serverName: string,
                             protocol: string, group: string, signature: string)

  const NTLS_VERSION := 0x0101

  datatype ConnectionState = ConnectionState(
    complete: bool, session: Session, ntls: bool, verification: Verification,
    peers: array?<Der>, chains: array?<array?<Der>>, errors: array?<VerifyError>)

  /** The contents of a connection state. */
  datatype StateView = StateView(
    complete: bool, session: Session, ntls: bool, verification: Verification,
    peers: seq<bytes>, chains: seq<seq<bytes>>, errors: seq<ErrorView>)

  /** What the native connection reports: slices it made for this call. */
  datatype RawState = RawState(
    session: Session, verifyEnabled: bool, performed: bool, verifyCode: int,
    peers: array?<Der>, chain: array?<Der>, failures: array?<VerifyError>)

  datatype RawView = RawView(
    session: Session, verifyEnabled: bool, performed: bool, verifyCode: int,
    peers: seq<bytes>, chain: seq<bytes>, failures: seq<ErrorView>)

  ghost function StateObjects(st: ConnectionState): set<object>
    reads st.peers, st.chains, Lists(st.chains), st.errors
  {
    DerObjects(st.peers) + ChainObjects(st.chains) + ErrorObjects(st.errors)
  }

  ghost predicate HasState(st: ConnectionState, view: StateView)
    reads st.peers, st.chains, Lists(st.chains), st.errors, StateObjects(st)
  {
    st.complete == view.complete && st.session == view.session && st.ntls == view.ntls
    && st.verification == view.verification
    && HasDers(st.peers, view.peers) && HasChains(st.chains, view.chains) && HasErrors(st.errors, view.errors)
  }

  /** The state is `view`, and everything it is made of is in `owned`. */
  ghost predicate HasStateIn(st: ConnectionState, view: StateView, owned: set<object>)
    reads owned
  {
    (st.peers != null ==> st.peers in owned) && (st.chains != null ==> st.chains in owned)
    && (st.errors != null ==> st.errors in owned) && Lists(st.chains) <= owned && StateObjects(st) <= owned
    && HasState(st, view)
  }

  ghost function RawObjects(raw: RawState): set<object>
    reads raw.peers, raw.chain, raw.failures
  {
    DerObjects(raw.peers) + DerObjects(raw.chain) + ErrorObjects(raw.failures)
  }

  ghost predicate HasRaw(raw: RawState, view: RawView)
    reads raw.peers, raw.chain, raw.failures, RawObjects(raw)
  {
    raw.session == view.session && raw.verifyEnabled == view.verifyEnabled && raw.performed == view.performed
    && raw.verifyCode == view.verifyCode
    && HasDers(raw.peers, view.peers) && HasDers(raw.chain, view.chain) && HasErrors(raw.failures, view.failures)
  }

  method CloneState(st: ConnectionState, ghost view: StateView) returns (copy: ConnectionState)
    requires HasState(st, view)
    ensures HasState(copy, view) && fresh(StateObjects(copy))
  {
    var peers := CloneDER(st.peers, view.peers);
    assert HasChains(st.chains, view.chains);
    var chains := CloneChains(st.chains, view.chains);
    hide HasChains;
    var errors := CloneErrors(st.errors, view.errors);
    copy := st.(peers := peers, chains := chains, errors := errors);
  }

  /** What a state made of a native report shares with it. */
  ghost predicate BuiltFrom(st: ConnectionState, raw: RawState)
    reads st.chains, st.errors, raw.failures
  {
    st.peers == raw.peers
    && (st.chains != null ==> st.chains.Length == 1 && st.chains[0] == raw.chain)
    && (st.errors != null && raw.failures != null && raw.failures.Length > 0 ==> st.errors[..] == raw.failures[..])
    && (st.errors != null && (raw.failures == null || raw.failures.Length == 0) ==> st.errors.Length == 1)
  }

  function CollectedErrors(raw: RawView): seq<ErrorView> {
    if raw.verifyCode > 0 && raw.failures == [] then [ErrorView(raw.verifyCode, 0, [])] else raw.failures
  }

  /** The state published for a native report. */
  function Captured(raw: RawView, success: bool): StateView {
    var ntls := raw.session.version == NTLS_VERSION;
    var base := StateView(success, raw.session, ntls, NotPerformed, raw.peers, [], []);
    if !raw.verifyEnabled || !raw.performed || raw.peers == [] then base
    else
      var errors := CollectedErrors(raw);
      if errors != [] then base.(verification := Failed, errors := errors)
      else base.(verification := Passed, chains := if success && raw.chain != [] then [raw.chain] else [])
  }

  /** What every published state satisfies. */
  predicate Consistent(v: StateView) {
    (v.verification.Failed? <==> v.errors != [])
    && (v.chains != [] ==> v.verification.Passed? && v.errors == [])
    && (!v.verification.NotPerformed? ==> v.peers != [])
    && (v.ntls <==> v.session.version == NTLS_VERSION)
  }

  lemma CapturedIsConsistent(raw: RawView, success: bool, complete: bool)
    ensures Consistent(Captured(raw, success).(complete := complete))
    ensures var v := Captured(raw, success);
            (v.verification.Failed? <==> raw.verifyEnabled && raw.performed && raw.peers != []
                                         && (raw.failures != [] || raw.verifyCode > 0))
            && (v.verification.Passed? <==> raw.verifyEnabled && raw.performed && raw.peers != []
                                            && raw.failures == [] && raw.verifyCode <= 0)
            && (v.chains != [] <==> v.verification.Passed? && success && raw.chain != [])
            && (raw.failures != [] && v.verification.Failed? ==> v.errors == raw.failures)
  {
  }

  // ----- the connection -----

  /** The verification callbacks of the configuration in force, where there are any, with what they will answer. */
  datatype Callbacks = Callbacks(peer: Option<Option<nat>>, connection: Option<Option<nat>>) {
    /** The second is asked only if the first does not refuse. */
    function Refusal(): Option<nat> {
      if peer.Some? && peer.value.Some? then peer.value else if connection.Some? then connection.value else None
    }

    function Error(): Option<Error> {
      if Refusal().None? then None else Some(VerifyCallback(Refusal().value))
    }
  }

  /** What the caller's context says each time it is asked: at the select, after it and at the end. */
  datatype Polls = Polls(
    atSelect: Option<ContextError>, atCallback: Option<ContextError>, atEnd: Option<ContextError>)
  {
    /** A context that has ended stays ended. */
    predicate Valid() {
      (atSelect.Some? ==> atCallback == atSelect) && (atCallback.Some? ==> atEnd == atCallback)
    }
  }

  /** What the handshake block hears: a native failure, a callback's report, a refusal of the state. */
  datatype Heard = Heard(native: Option<Error>, reported: Option<CallbackReport>, refusal: Option<nat>)

  /** How a native handshake ends. */
  type NativeEnd = e: Option<Error> | e.Some? ==> e.value.Native? || e.value.ConnectionClosed? witness None

  /** What everybody but the context and the native report will say to the handshake block. */
  datatype Answers = Answers(native: NativeEnd, reported: Option<CallbackReport>, callbacks: Callbacks) {
    function ToHeard(): Heard {
      Heard(native, reported, callbacks.Refusal())
    }
  }

  /** The error at the select: the context's own or the native one. */
  function FirstError(ctx: Polls, heard: Heard): Option<Error> {
    if ctx.atSelect.Some? then Some(Context(ctx.atSelect.value)) else heard.native
  }

  /** The error before the state is captured, which a callback's report can replace. */
  function EarlyError(ctx: Polls, heard: Heard): Option<Error> {
    var first := FirstError(ctx, heard);
    if heard.reported.Some? && first.Some? && ctx.atCallback.None? then Some(Callback(heard.reported.value)) else first
  }

  /** The error once the state is captured. */
  function CapturedError(ctx: Polls, hasReport: bool, heard: Heard): Option<Error> {
    var early := EarlyError(ctx, heard);
    if early.Some? then early
    else if !hasReport then Some(ConnectionClosed)
    else if heard.refusal.Some? then Some(VerifyCallback(heard.refusal.value))
    else None
  }

  /** The error the block caches, in program order. */
  function BlockError(ctx: Polls, hasReport: bool, heard: Heard): Option<Error> {
    var captured := CapturedError(ctx, hasReport, heard);
    if captured.None? && ctx.atEnd.Some? then Some(Context(ctx.atEnd.value)) else captured
  }

  /** The context that never ends. */
  const BACKGROUND := Polls(None, None, None)

  /** A user's callback, which may write to everything it is given: `given` are those objects. */
  method VerifyPeerCertificate(answer: Option<nat>, peers: array?<Der>, chains: array?<array?<Der>>,
                               ghost given: set<object>)
    returns (refused: Option<nat>)
    requires given == DerObjects(peers) + ChainObjects(chains)
    modifies given
    ensures refused == answer
  {
    modify given;
    refused := answer;
  }

  /** A user's callback, which may write to everything it is given: `given` are those objects. */
  method VerifyConnection(answer: Option<nat>, st: ConnectionState, ghost given: set<object>)
    returns (refused: Option<nat>)
    requires given == StateObjects(st)
    modifies given
    ensures refused == answer
  {
    modify given;
    refused := answer;
  }

  /** The errors of a native report as errors of the state: a bare verify code stands for a missing list. */
  method CollectErrors(raw: RawState, ghost view: RawView) returns (errors: array?<VerifyError>)
    requires HasErrors(raw.failures, view.failures) && raw.verifyCode == view.verifyCode
    ensures HasErrors(errors, CollectedErrors(view))
    ensures errors != null ==> fresh(errors)
    ensures errors != null ==>
              if raw.failures != null && raw.failures.Length > 0 then errors[..] == raw.failures[..]
              else errors.Length == 1 && fresh(errors[0].certificate)
  {
    errors := null;
    if raw.failures != null && raw.failures.Length > 0 {
      errors := new VerifyError[raw.failures.Length](
        i requires 0 <= i < raw.failures.Length reads raw.failures => raw.failures[i]);
    } else if raw.verifyCode > 0 {
      var none := new byte[0];
      errors := new VerifyError[1](_ => VerifyError(raw.verifyCode, 0, none));
    }
  }

  /** The published state before the callbacks are asked: its certificates are those of the report. */
  method BuildState(raw: RawState, ghost view: RawView, success: bool) returns (st: ConnectionState)
    requires HasRaw(raw, view)
    ensures HasState(st, Captured(view, success)) && BuiltFrom(st, raw)
    ensures (st.chains != null ==> fresh(st.chains)) && (st.errors != null ==> fresh(st.errors))
  {
    var ntls := raw.session.version == NTLS_VERSION;
    st := ConnectionState(success, raw.session, ntls, NotPerformed, raw.peers, null, null);
    if raw.verifyEnabled && raw.performed && raw.peers != null && raw.peers.Length > 0 {
      var errors := CollectErrors(raw, view);
      st := st.(verification := Passed, errors := errors);
      if errors != null && errors.Length > 0 {
        st := st.(verification := Failed);
      } else if success && raw.chain != null && raw.chain.Length > 0 {
        var chains := new array?<Der>[1](_ => raw.chain);
        st := st.(chains := chains);
      }
    }
  }

  /** A state owns its slices and certificates, and no connection is one of those. */
  lemma Owned(st: ConnectionState, view: StateView, c: Conn) returns (owned: set<object>)
    requires HasState(st, view)
    ensures HasStateIn(st, view, owned) && c !in owned
  {
    hide HasDers, HasChains, HasErrors;
    owned := StateObjects(st) + Lists(st.chains);
  }

  /** When another goroutine closes during a read or write: not at all, before the lock is held, or after. */
  datatype Closing = Never | AtLock | InCall

  class Conn {
    const hasHandle: bool
    var started: bool
    var err: Option<Error>
    var done: bool
    var state: ConnectionState
    var closed: bool
    var closeStarted: bool
    var closeErr: Option<Error>
    ghost var view: StateView
    ghost var starts: nat
    /** Plain text handed to the native connection so far. */
    ghost var sent: bytes
    /** Plain text of the peer that has not been read yet. */
    var incoming: bytes

    /** What the stored state is made of. */
    ghost var owned: set<object>

    ghost predicate Holds()
      reads this, owned
    {
      this !in owned && HasStateIn(state, view, owned) && Consistent(view)
    }

    ghost predicate Valid()
      reads this, owned
    {
      Holds()
      && (!started ==> err.None? && !done && !view.complete && starts == 0)
      && (started ==> (err.None? <==> done) && (done <==> view.complete) && starts <= 1)
      && (closed <==> closeStarted)
      && (!closeStarted ==> closeErr.None?)
    }

    constructor (hasHandle: bool, incoming: bytes)
      ensures Valid() && !started && !closed && sent == [] && this.incoming == incoming
    {
      this.hasHandle, this.incoming := hasHandle, incoming;
      started, err, done := false, None, false;
      closed, closeStarted, closeErr := false, false, None;
      var session := Session(0, 0, "", "", "", "", "");
      state := ConnectionState(false, session, false, NotPerformed, null, null, null);
      view := StateView(false, session, false, NotPerformed, [], [], []);
      starts, sent, owned := 0, [], {};
    }

    /** A deep copy: nothing it is made of is part of the stored state. */
    method Snapshot() returns (copy: ConnectionState)
      requires Valid()
      ensures HasState(copy, view) && fresh(StateObjects(copy))
    {
      copy := CloneState(state, view);
    }

    /**
     Publishes a native report after asking the callbacks. The callbacks get copies, so whatever
     they write, what is published is the report.
     */
    method Capture(success: bool, raw: Option<RawState>, callbacks: Callbacks, ghost rawView: RawView)
      returns (refusal: Option<Error>)
      requires Holds() && (raw.Some? ==> HasRaw(raw.value, rawView))
      modifies `state, `view, `owned
      ensures Holds()
      ensures raw.None? ==> refusal == Some(ConnectionClosed) && view == old(view) && state == old(state)
      ensures raw.Some? ==> view == Captured(rawView, success).(complete := success && refusal.None?)
                            && BuiltFrom(state, raw.value)
      ensures raw.Some? ==> refusal == if success then callbacks.Error() else None
    {
      if raw.None? {
        return Some(ConnectionClosed);
      }
      refusal := Publish(success, raw.value, callbacks, rawView);
    }

    method Publish(success: bool, raw: RawState, callbacks: Callbacks, ghost rawView: RawView)
      returns (refusal: Option<Error>)
      requires HasRaw(raw, rawView)
      modifies `state, `view, `owned
      ensures Holds()
      ensures view == Captured(rawView, success).(complete := success && refusal.None?) && BuiltFrom(state, raw)
      ensures refusal == if success then callbacks.Error() else None
    {
      hide HasStateIn, HasRaw, Captured, Consistent;
      var st;
      ghost var newView, objects;
      st, refusal, newView, objects := Prepare(success, raw, callbacks, rawView, this);
      state, view, owned := st, newView, objects;
    }

    /** The state to publish, and what the callbacks said about it. */
    static method Prepare(success: bool, raw: RawState, callbacks: Callbacks, ghost rawView: RawView, ghost c: Conn)
      returns (st: ConnectionState, refusal: Option<Error>, ghost newView: StateView, ghost objects: set<object>)
      requires HasRaw(raw, rawView)
      ensures newView == Captured(rawView, success).(complete := success && refusal.None?) && Consistent(newView)
      ensures HasStateIn(st, newView, objects) && BuiltFrom(st, raw) && c !in objects
      ensures refusal == if success then callbacks.Error() else None
    {
      st, refusal := Consult(success, raw, callbacks, rawView);
      newView := Captured(rawView, success).(complete := success && refusal.None?);
      CapturedIsConsistent(rawView, success, newView.complete);
      hide HasRaw, BuiltFrom, HasDers, HasErrors, HasChains, Captured, Consistent;
      objects := Owned(st, newView, c);
    }

    static method Consult(success: bool, raw: RawState, callbacks: Callbacks, ghost rawView: RawView)
      returns (st: ConnectionState, refusal: Option<Error>)
      requires HasRaw(raw, rawView)
      ensures HasState(st, Captured(rawView, success).(complete := success && refusal.None?)) && BuiltFrom(st, raw)
      ensures refusal == if success then callbacks.Error() else None
    {
      st := BuildState(raw, rawView, success);
      refusal := None;
      if success {
        refusal := Ask(st, callbacks, Captured(rawView, success));
      }
      hide HasDers, HasErrors, HasChains, BuiltFrom;
      st := st.(complete := success && refusal.None?);
    }

    static method Ask(st: ConnectionState, callbacks: Callbacks, ghost view: StateView) returns (refusal: Option<Error>)
      requires HasState(st, view)
      ensures HasState(st, view)
      ensures refusal == callbacks.Error()
    {
      hide HasState;
      var refused: Option<nat> := None;
      if callbacks.peer.Some? {
        refused := AskPeer(callbacks.peer.value, st, view);
      }
      if refused.None? && callbacks.connection.Some? {
        refused := AskConnection(callbacks.connection.value, st, view);
      }
      refusal := if refused.None? then None else Some(VerifyCallback(refused.value));
    }

    static method AskPeer(answer: Option<nat>, st: ConnectionState, ghost view: StateView)
      returns (refused: Option<nat>)
      requires HasState(st, view)
      ensures refused == answer
      ensures HasState(st, view)
    {
      var peers, chains, given := CloneForPeer(st, view);
      hide HasDers, HasChains, HasErrors;
      refused := VerifyPeerCertificate(answer, peers, chains, given);
    }

    static method CloneForPeer(st: ConnectionState, ghost view: StateView)
      returns (peers: array?<Der>, chains: array?<array?<Der>>, ghost given: set<object>)
      requires HasState(st, view)
      ensures HasDers(peers, view.peers) && HasChains(chains, view.chains)
      ensures given == DerObjects(peers) + ChainObjects(chains) && fresh(given)
    {
      var copy := CloneState(st, view);
      chains := copy.chains;
      assert HasState(st, view) && HasChains(chains, view.chains) && fresh(ChainObjects(chains));
      hide HasErrors, HasState;
      peers := CloneDER(st.peers, view.peers);
      given := DerObjects(peers) + ChainObjects(chains);
    }

    static method AskConnection(answer: Option<nat>, st: ConnectionState, ghost view: StateView)
      returns (refused: Option<nat>)
      requires HasState(st, view)
      ensures refused == answer
      ensures HasState(st, view)
    {
      var copy := CloneState(st, view);
      refused := VerifyConnection(answer, copy, StateObjects(copy));
    }

    // ----- the handshake -----

    /** Runs the handshake the first time only; every call reports the one outcome. */
    method HandshakeContext(ctx: Option<Polls>, raw: Option<RawState>, answers: Answers, ghost rawView: RawView)
      returns (r: Option<Error>)
      requires Valid() && (raw.Some? ==> HasRaw(raw.value, rawView)) && (ctx.Some? ==> ctx.value.Valid())
      modifies `started, `err, `done, `state, `view, `owned, `starts
      ensures Valid() && started && r == Report(err)
      ensures old(started) ==> err == old(err) && done == old(done) && state == old(state) && view == old(view)
                               && starts == old(starts)
      ensures !old(started) && done
              ==> hasHandle && starts == 1 && raw.Some? && view == Captured(rawView, true)
                  && ctx.Some? && ctx.value == BACKGROUND
      ensures !old(started) && ctx.None? ==> r == Some(Error.Handshake(NoContextGiven)) && starts == 0
      ensures !old(started) && ctx.Some? && !hasHandle ==> r == Some(Error.Handshake(NoHandle)) && starts == 0
      ensures !old(started) && ctx.Some? && hasHandle ==> err == BlockError(ctx.value, raw.Some?, answers.ToHeard())
      ensures !old(started) && ctx.Some? && hasHandle && ctx.value.atSelect.Some?
              ==> r == Some(Context(ctx.value.atSelect.value))
    {
      hide HasStateIn, Consistent;
      if !started {
        if ctx.None? {
          err := Some(NoContextGiven);
        } else if !hasHandle {
          err := Some(NoHandle);
        } else {
          var e := RunHandshake(ctx.value, raw, answers, rawView);
          err, done, starts := e, e.None?, 1;
        }
        started := true;
      }
      r := Report(err);
    }

    /** Waits for the native handshake, then asks the context and the callbacks. */
    static method Listen(ctx: Polls, answers: Answers) returns (e: Option<Error>)
      ensures e == EarlyError(ctx, answers.ToHeard())
    {
      e := answers.native;
      if ctx.atSelect.Some? {
        e := Some(Context(ctx.atSelect.value));
      }
      if answers.reported.Some? && e.Some? && ctx.atCallback.None? {
        e := Some(Callback(answers.reported.value));
      }
    }

    /** From the native outcome to the cached one: the context first, then callbacks, state and the context again. */
    method RunHandshake(ctx: Polls, raw: Option<RawState>, answers: Answers, ghost rawView: RawView)
      returns (e: Option<Error>)
      requires Holds() && (raw.Some? ==> HasRaw(raw.value, rawView)) && ctx.Valid() && !view.complete
      modifies `state, `view, `owned
      ensures Holds() && (e.None? <==> view.complete)
      ensures e == BlockError(ctx, raw.Some?, answers.ToHeard())
      ensures e.None? ==> raw.Some? && view == Captured(rawView, true) && ctx == BACKGROUND
      ensures ctx.atSelect.Some? ==> e == Some(Context(ctx.atSelect.value))
    {
      e := Listen(ctx, answers);
      assert raw.Some? ==> HasRaw(raw.value, rawView);
      assert Captured(rawView, true).complete;
      assert ctx.atSelect.Some? ==> e == Some(Context(ctx.atSelect.value));
      hide HasStateIn, HasRaw, Consistent, BuiltFrom, EarlyError, Captured;
      var refusal := Capture(e.None?, raw, answers.callbacks, rawView);
      if e.None? {
        e := refusal;
      }
      if e.None? && ctx.atEnd.Some? {
        e := Some(Context(ctx.atEnd.value));
        Withdraw();
      }
    }

    /** Takes a published completion back. */
    method Withdraw()
      requires Holds()
      modifies `state, `view
      ensures Holds() && view == old(view).(complete := false)
    {
      state := state.(complete := false);
      view := view.(complete := false);
    }

    // ----- application data -----

    /** One native write: a prefix of `chunk` goes out, or there is an error. */
    method NativeWrite(chunk: bytes) returns (n: nat, error: Option<Error>)
      requires chunk != []
      modifies `sent
      ensures n <= |chunk| && sent == old(sent) + chunk[..n]
    {
      var m: int := *;
      n := if 0 <= m < |chunk| then m else |chunk|;
      sent := sent + chunk[..n];
      var ok: bool := *;
      var code: nat := *;
      error := if ok then None else Some(Native(code));
    }

    /** All of `b` goes out, in order and once, or the count says which prefix did. */
    method Write(b: bytes, closing: Closing, raw: Option<RawState>, answers: Answers, ghost rawView: RawView)
      returns (n: nat, error: Option<Error>)
      requires Valid() && (raw.Some? ==> HasRaw(raw.value, rawView))
      modifies `started, `err, `done, `state, `view, `owned, `starts, `sent
      ensures Valid() && started
      ensures n <= |b| && sent == old(sent) + b[..n]
      ensures error.None? ==> n == |b| && done && !closed && !closing.AtLock?
      ensures !done ==> n == 0 && error == Report(err)
      ensures !old(started) && hasHandle ==> err == BlockError(BACKGROUND, raw.Some?, answers.ToHeard())
      ensures done && (closed || closing.AtLock?) ==> n == 0 && error == Some(ErrClosed)
    {
      hide HasStateIn, Consistent, BlockError;
      n := 0;
      error := HandshakeContext(Some(BACKGROUND), raw, answers, rawView);
      if error.Some? {
        return;
      }
      if closed {
        return 0, Some(ErrClosed);
      }
      if closed || closing.AtLock? {
        return 0, Some(ErrClosed);
      }
      n, error := WriteAll(b);
    }

    method WriteAll(b: bytes) returns (n: nat, error: Option<Error>)
      modifies `sent
      ensures n <= |b| && sent == old(sent) + b[..n]
      ensures error.None? ==> n == |b|
    {
      n := 0;
      while n < |b|
        invariant n <= |b| && sent == old(sent) + b[..n]
      {
        var m, failure := NativeWrite(b[n..]);
        assert b[..n] + b[n..][..m] == b[..n + m];
        n := n + m;
        if failure.Some? {
          return n, failure;
        }
        if m == 0 {
          return n, Some(ShortWrite);
        }
      }
      return n, None;
    }

    /** One native read: the next octets from the peer, or an error and none. An empty buffer asks for nothing. */
    method NativeRead(room: nat) returns (data: bytes, error: Option<Error>)
      modifies `incoming
      ensures |data| <= room && old(incoming) == data + incoming
      ensures error.Some? ==> data == [] && (error.value.Native? || error.value.ConnectionClosed?)
      ensures room == 0 ==> error.None?
    {
      data, error := [], None;
      if room == 0 {
        return;
      }
      var code: int := *;
      var ok: bool := *;
      if ok {
        var m: int := *;
        var n := if 0 <= m <= room && m <= |incoming| then m else 0;
        data, incoming := incoming[..n], incoming[n..];
      } else {
        error := Some(if code < 0 then ConnectionClosed else Native(code));
      }
    }

    /**
     What is read is what the peer sent next, nothing lost or repeated. After Close, after a clean
     shutdown, and for an error while another goroutine closes, the stream has ended.
     */
    method Read(room: nat, closing: Closing, raw: Option<RawState>, answers: Answers, ghost rawView: RawView)
      returns (data: bytes, error: Option<Error>)
      requires Valid() && (raw.Some? ==> HasRaw(raw.value, rawView))
      modifies `started, `err, `done, `state, `view, `owned, `starts, `incoming
      ensures Valid() && started
      ensures |data| <= room && old(incoming) == data + incoming
      ensures !done ==> data == [] && error == Report(err)
      ensures !old(started) && hasHandle ==> err == BlockError(BACKGROUND, raw.Some?, answers.ToHeard())
      ensures done && (closed || closing.AtLock?) ==> data == [] && error == Some(EndOfStream)
      ensures done && !closed && !closing.AtLock? && error.Some?
              ==> data == [] && (error.value.EndOfStream? || (error.value.Native? && closing.Never?))
    {
      hide HasStateIn, Consistent, BlockError;
      data := [];
      error := HandshakeContext(Some(BACKGROUND), raw, answers, rawView);
      if error.Some? {
        return;
      }
      if closed {
        return [], Some(EndOfStream);
      }
      if closed || closing.AtLock? {
        return [], Some(EndOfStream);
      }
      data, error := NativeRead(room);
      if error.Some? && (closed || closing.InCall?) {
        return data, Some(EndOfStream);
      }
      if error == Some(ConnectionClosed) {
        return data, Some(EndOfStream);
      }
    }

    /**
     Closes once: the socket, the native handle, then the owned native context. The first failure
     is what this and every later call returns.
     */
    method Close(socket: Option<Error>, handle: Option<Error>, context: Option<Error>) returns (error: Option<Error>)
      requires Valid()
      modifies `closed, `closeStarted, `closeErr
      ensures Valid() && closed && error == closeErr
      ensures old(closed) ==> closeErr == old(closeErr)
      ensures !old(closed) ==> closeErr == if socket.Some? then socket
                                           else if hasHandle && handle.Some? then handle else context
    {
      hide HasStateIn, Consistent;
      if !closeStarted {
        closeStarted := true;
        closed := true;
        var first := socket;
        if hasHandle && handle.Some? && first.None? {
          first := handle;
        }
        if context.Some? && first.None? {
          first := context;
        }
        closeErr := first;
      }
      error := closeErr;
    }
  }
}
