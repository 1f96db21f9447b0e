/**
 The connection and session protocol of the IME client (src/client/client.cc), as functions on its
 state.

 Everything outside the client is an oracle: answer n of an Environment says what the n-th contact
 with the server or the launcher brings. A statement about every environment is a statement about
 every behaviour of the other side. The state carries a Trace of what the client did, and a log of
 it in order, on which nothing depends.
 */
module Session {
  // The client's view of the server; SERVER_TIMEOUT and what follows it are failures.
  datatype Status =
    | Unknown
    | Shutdown
    | InvalidSession
    | Ok
    | Timeout
    | VersionMismatch
    | BrokenMessage
    | Fatal
  {
    // server_status_ >= SERVER_TIMEOUT
    predicate Failed() {
      Timeout? || VersionMismatch? || BrokenMessage? || Fatal?
    }
  }

  datatype Command =
    | CreateSession
    | DeleteSession
    | SetRequest
    | SendKey
    | TestSendKey
    | SendCommand
    | ShutdownServer
    | NoOperation
    | OtherCommand

  // A request; content stands for everything the protocol does not look at.
  datatype Input = Input(kind: Command, id: nat, content: nat)

  datatype Output = Output(id: nat, consumed: bool, mode: nat, hasMode: bool, hasResult: bool, succeeded: bool)

  // What one contact brings: making an IPC client, connecting it, the versions it reports, the
  // call over it, or the outcome of asking the launcher to start, wait for or kill the server.
  datatype Answer = Answer(
    clientMade: bool, connected: bool, protocol: nat, olderProduct: bool, processId: nat,
    callSucceeded: bool, timedOut: bool, parsed: bool, output: Output,
    started: bool, waited: bool, terminated: bool)

  type Environment = nat -> Answer

  // starts, reports, reboots: calls of StartServer and OnFatal, and servers taken down by a version check.
  // sent: the caller's inputs as sent. replayed: the journal entries as sent.
  // consumed: the inputs the server consumed since the journal was last reset.
  datatype Trace = Trace(
    starts: nat, reports: nat, reboots: nat, sent: seq<Input>, replayed: seq<Input>, consumed: seq<Input>)

  // Why a request is sent.
  datatype Purpose = Plain | ForCaller | ForPlayback

  // What the client did, one after the other: asked the launcher to start, wait for or kill the
  // server, reported a fatal error, or had a request reach the server.
  datatype Event = Started | Waited | Killed | Reported | Sent(why: Purpose, input: Input)

  datatype State = State(
    status: Status, id: nat, protocol: nat, olderProduct: bool, processId: nat,
    history: seq<Input>, lastMode: nat, clock: nat, trace: Trace, log: seq<Event>)

  const IPC_PROTOCOL_VERSION: nat := 3
  const MAX_PLAYBACK_SIZE: nat := 512

  const FRESH := State(Unknown, 0, 0, false, 0, [], 0, 0, Trace(0, 0, 0, [], [], []), [])

  // t may differ from s only in what talking to the server changes.
  predicate SameSession(s: State, t: State) {
    t.id == s.id && t.history == s.history && t.lastMode == s.lastMode && t.trace.consumed == s.trace.consumed
  }

  // ---- The launcher ----

  function Report(s: State): State {
    s.(status := Fatal, trace := s.trace.(reports := s.trace.reports + 1), log := s.log + [Reported])
  }

  function StartServer(env: Environment, s: State): (r: (State, bool)) {
    (s.(clock := s.clock + 1, trace := s.trace.(starts := s.trace.starts + 1), log := s.log + [Started]),
     env(s.clock).started)
  }

  function EnsureConnection(env: Environment, s: State): (r: (State, bool)) {
    match s.status
    case Ok => (s, true)
    case InvalidSession => (s, true)
    case Fatal => (s, false)
    case Timeout => (Report(s), false)
    case BrokenMessage => (Report(s), false)
    case VersionMismatch => (Report(s), false)
    case Shutdown => Restarted(env, s)
    case Unknown => Restarted(env, s)
  }

  function Restarted(env: Environment, s: State): (r: (State, bool)) {
    var (s1, started) := StartServer(env, s);
    if started then (s1.(status := InvalidSession), true) else (Report(s1), false)
  }

  // ---- One request ----

  function Call(env: Environment, s: State, input: Input, why: Purpose, out: Output): (r: (State, bool, Output)) {
    if s.status.Failed() then (s, false, out)
    else
      var a := env(s.clock);
      var s1 := s.(clock := s.clock + 1, protocol := IPC_PROTOCOL_VERSION, olderProduct := false, processId := 0);
      if !a.clientMade then (s1.(status := Fatal), false, out)
      else if !a.connected then
        (if s.status != Unknown then s1.(status := Shutdown) else s1, false, out)
      else
        var s2 := s1.(protocol := a.protocol, olderProduct := a.olderProduct, processId := a.processId);
        if a.protocol != IPC_PROTOCOL_VERSION then (s2, false, out)
        else
          var s3 := s2.(trace := Logged(s2.trace, input, why), log := s2.log + [Sent(why, input)]);
          if !a.callSucceeded then (s3.(status := if a.timedOut then Timeout else Shutdown), false, out)
          else if !a.parsed then (s3.(status := BrokenMessage), false, a.output)
          else (s3, true, a.output)
  }

  function Logged(t: Trace, input: Input, why: Purpose): Trace {
    match why
    case Plain => t
    case ForCaller => t.(sent := t.sent + [input])
    case ForPlayback => t.(replayed := t.replayed + [input])
  }

  function CallAndCheckVersion(env: Environment, s: State, input: Input, out: Output): (r: (State, bool, Output)) {
    var (s1, ok, o) := Call(env, s, input, ForCaller, out);
    (if !ok && s1.protocol != IPC_PROTOCOL_VERSION then s1.(status := VersionMismatch) else s1, ok, o)
  }

  const BLANK := Output(0, false, 0, false, false, true)

  function CallCommand(env: Environment, s: State, kind: Command): (r: (State, bool)) {
    var (s1, ok, _) := Call(env, s, Input(kind, s.id, 0), Plain, BLANK);
    (s1, ok)
  }

  function ShutdownServerNow(env: Environment, s: State): (r: (State, bool)) {
    var (s1, _) := CallCommand(env, s, ShutdownServer);
    (s1.(clock := s1.clock + 1, log := s1.log + [Waited]), env(s1.clock).waited)
  }

  // ---- Version negotiation ----

  // Takes down a server of another version: politely if it can be talked to, else by force.
  function TakeDown(env: Environment, s: State, answered: bool): (r: (State, bool)) {
    var (s1, down) := if answered then ShutdownServerNow(env, s) else (s, true);
    if down && answered then (s1, true)
    else
      var s2 := s1.(clock := s1.clock + 1, log := s1.log + [Killed]);
      if !env(s1.clock).terminated then (s2.(status := BrokenMessage), false)
      else (s2.(clock := s2.clock + 1, log := s2.log + [Waited]), true)
  }

  // CheckVersionOrRestartServerInternal from the given trial on.
  function CheckVersion(env: Environment, s: State, input: Input, out: Output, trial: nat): (r: (State, bool, Output))
    requires trial < 2
    decreases 2 - trial
  {
    var (s1, ok, o) := Call(env, s, input, Plain, out);
    if !ok && s1.protocol > IPC_PROTOCOL_VERSION then (s1.(status := VersionMismatch), false, o)
    else if (ok && s1.olderProduct) || (!ok && s1.protocol < IPC_PROTOCOL_VERSION) then
      if trial > 0 then (s1.(status := BrokenMessage), false, o)
      else
        var (s2, down) := TakeDown(env, s1.(trace := s1.trace.(reboots := s1.trace.reboots + 1)), ok);
        if !down then (s2, false, o)
        else
          var (s3, up) := EnsureConnection(env, s2.(status := Unknown));
          if !up then (s3.(status := VersionMismatch), false, o)
          else CheckVersion(env, s3, input, o, trial + 1)
    else (s1, ok, o)
  }

  function CreateNewSession(env: Environment, s: State): (r: (State, bool)) {
    var (s1, ok, o) := CheckVersion(env, s.(id := 0), Input(CreateSession, 0, 0), BLANK, 0);
    if !ok then (s1, false)
    else if !o.succeeded then (s1.(status := InvalidSession), false)
    else (s1.(id := o.id), true)
  }

  function EnsureSession(env: Environment, s: State, hasRequest: bool): (r: (State, bool)) {
    var (s1, connected) := EnsureConnection(env, s);
    if !connected then (s1, false)
    else if s1.status == Ok then (s1, true)
    else
      var (s2, created) := CreateNewSession(env, s1);
      if !created then (EnsureConnection(env, s2).0, false)
      else
        var s3 := if hasRequest then Call(env, s2, Input(SetRequest, s2.id, 0), Plain, BLANK).0 else s2;
        (s3.(status := Ok), true)
  }

  // ---- The journal ----

  function ResetHistory(s: State): State {
    s.(history := [], trace := s.trace.(consumed := []))
  }

  function PushHistory(s: State, input: Input, out: Output): State {
    if !out.consumed then s
    else
      var s1 := if out.hasMode then s.(lastMode := out.mode) else s;
      var s2 := s1.(history := if |s1.history| < MAX_PLAYBACK_SIZE then s1.history + [input] else s1.history,
                    trace := s1.trace.(consumed := s1.trace.consumed + [input]));
      if input.kind == SendKey && out.hasResult then ResetHistory(s2) else s2
  }

  // The loop of PlaybackHistory from entry i on.
  function Replay(env: Environment, s: State, i: nat, out: Output): State
    decreases |s.history| - i
  {
    if i >= |s.history| then s
    else
      var entry := s.history[i].(id := s.id);
      var (s1, ok, o) := Call(env, s.(history := s.history[i := entry]), entry, ForPlayback, out);
      if ok then Replay(env, s1, i + 1, o) else s1
  }

  function PlaybackHistory(env: Environment, s: State): State {
    if |s.history| >= MAX_PLAYBACK_SIZE then ResetHistory(s) else Replay(env, s, 0, BLANK)
  }

  // ---- A command with a session, retried once ----

  function EnsureCallCommand(env: Environment, s: State, hasRequest: bool, input: Input, out: Output)
      : (r: (State, bool, Output)) {
    var (s1, ready) := EnsureSession(env, s, hasRequest);
    if !ready then (s1, false, out)
    else
      var first := input.(id := s1.id);
      var (s2, ok, o) := CallAndCheckVersion(env, s1, first, out.(id := 0));
      var s3 := if ok && o.id != first.id then s2.(status := InvalidSession) else s2;
      if s3.status.Failed() then (s3, false, o)
      else if s3.status == Shutdown || s3.status == InvalidSession then SecondTrial(env, s3, hasRequest, input, o)
      else (PushHistory(s3, first, o), true, o)
  }

  function SecondTrial(env: Environment, s: State, hasRequest: bool, input: Input, out: Output)
      : (r: (State, bool, Output)) {
    var (s1, ready) := EnsureSession(env, s, hasRequest);
    if !ready then (s1, false, out)
    else
      var s2 := PlaybackHistory(env, s1);
      var second := input.(id := s2.id);
      var (s3, ok, o) := CallAndCheckVersion(env, s2, second, out);
      if !ok then (ResetHistory(s3.(history := s3.history + [second])), false, o)
      else (PushHistory(s3, second, o), true, o)
  }

  // CheckVersionOrRestartServer
  function CheckVersionOrRestart(env: Environment, s: State): (r: (State, bool)) {
    var (s1, ok, _) := CheckVersion(env, s, Input(NoOperation, 0, 0), BLANK, 0);
    if ok then (s1, true) else EnsureConnection(env, s1)
  }

  function Reset(s: State): State {
    s.(status := Unknown, protocol := 0, processId := 0)
  }
}
