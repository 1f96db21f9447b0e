/**
 The client object of src/client/client.cc: its fields, and its methods in the form the program
 gives them, each proved to do to the fields exactly what the functions of Session say. What is
 proved of those functions in SessionTheorems therefore holds of the object.
 */
module Client {
  import opened Session
  import SessionTheorems

  class Client {
    const env: Environment
    const hasRequest: bool

    var status: Status
    var id: nat
    var serverProtocolVersion: nat
    var serverProductOlder: bool
    var serverProcessId: nat
    var historyInputs: seq<Input>
    var lastMode: nat

    // How many contacts there have been with what lies outside, and what came of them.
    var clock: nat
    ghost var trace: Trace
    ghost var log: seq<Event>

    ghost function View(): State
      reads this
    {
      State(status, id, serverProtocolVersion, serverProductOlder, serverProcessId,
            historyInputs, lastMode, clock, trace, log)
    }

    constructor (env: Environment, hasRequest: bool)
      ensures View() == FRESH && this.env == env && this.hasRequest == hasRequest
    {
      this.env, this.hasRequest := env, hasRequest;
      status, id, serverProtocolVersion, serverProductOlder, serverProcessId := Unknown, 0, 0, false, 0;
      historyInputs, lastMode, clock := [], 0, 0;
      trace, log := Trace(0, 0, 0, [], [], []), [];
    }

    // ---- The launcher ----

    method OnFatal()
      modifies this`trace, this`log
      ensures trace == old(trace).(reports := old(trace.reports) + 1) && log == old(log) + [Reported]
    {
      trace, log := trace.(reports := trace.reports + 1), log + [Reported];
    }

    method StartServer() returns (ok: bool)
      modifies this`clock, this`trace, this`log
      ensures (View(), ok) == Session.StartServer(env, old(View()))
    {
      ok := env(clock).started;
      clock := clock + 1;
      trace, log := trace.(starts := trace.starts + 1), log + [Started];
    }

    // ServerLauncher::WaitServer and ForceTerminateServer.
    method WaitServer() returns (ok: bool)
      modifies this`clock, this`log
      ensures ok == env(old(clock)).waited && clock == old(clock) + 1 && log == old(log) + [Waited]
    {
      ok := env(clock).waited;
      clock, log := clock + 1, log + [Waited];
    }

    method ForceTerminateServer() returns (ok: bool)
      modifies this`clock, this`log
      ensures ok == env(old(clock)).terminated && clock == old(clock) + 1 && log == old(log) + [Killed]
    {
      ok := env(clock).terminated;
      clock, log := clock + 1, log + [Killed];
    }

    method EnsureConnection() returns (ok: bool)
      modifies this
      ensures (View(), ok) == Session.EnsureConnection(env, old(View()))
    {
      match status
      case Ok => return true;
      case InvalidSession => return true;
      case Fatal =>
        // Already reported: no report, no change.
        return false;
      case Timeout =>
        OnFatal();
        status := Fatal;
        return false;
      case BrokenMessage =>
        OnFatal();
        status := Fatal;
        return false;
      case VersionMismatch =>
        OnFatal();
        status := Fatal;
        return false;
      case _ =>
        var started := StartServer();
        if started {
          status := InvalidSession;
          return true;
        }
        OnFatal();
        status := Fatal;
        return false;
    }

    // ---- One request ----

    // The trace of a request that reaches the server.
    ghost method Log(input: Input, why: Purpose)
      modifies this`trace, this`log
      ensures trace == Logged(old(trace), input, why) && log == old(log) + [Sent(why, input)]
    {
      trace, log := Logged(trace, input, why), log + [Sent(why, input)];
    }

    method Call(input: Input, ghost why: Purpose, output: Output) returns (ok: bool, reply: Output)
      modifies this
      ensures (View(), ok, reply) == Session.Call(env, old(View()), input, why, output)
    {
      // A failed status sends nothing.
      if status.Failed() {
        return false, output;
      }
      var a := env(clock);
      clock := clock + 1;
      serverProtocolVersion := IPC_PROTOCOL_VERSION;
      serverProductOlder := false;
      serverProcessId := 0;
      if !a.clientMade {
        status := Fatal;
        return false, output;
      }
      if !a.connected {
        // Unknown stays, so that the next connection starts the server.
        if status != Unknown {
          status := Shutdown;
        }
        return false, output;
      }
      serverProtocolVersion := a.protocol;
      serverProductOlder := a.olderProduct;
      serverProcessId := a.processId;
      if serverProtocolVersion != IPC_PROTOCOL_VERSION {
        return false, output;
      }
      Log(input, why);
      if !a.callSucceeded {
        status := if a.timedOut then Timeout else Shutdown;
        return false, output;
      }
      if !a.parsed {
        status := BrokenMessage;
        return false, a.output;
      }
      return true, a.output;
    }

    method CallAndCheckVersion(input: Input, output: Output) returns (ok: bool, reply: Output)
      modifies this
      ensures (View(), ok, reply) == Session.CallAndCheckVersion(env, old(View()), input, output)
    {
      ok, reply := Call(input, ForCaller, output);
      if !ok {
        if serverProtocolVersion != IPC_PROTOCOL_VERSION {
          status := VersionMismatch;
        }
      }
    }

    method CallCommand(kind: Command) returns (ok: bool)
      modifies this
      ensures (View(), ok) == Session.CallCommand(env, old(View()), kind)
    {
      var reply;
      ok, reply := Call(Input(kind, id, 0), Plain, BLANK);
    }

    method ShutdownServerNow() returns (ok: bool)
      modifies this
      ensures (View(), ok) == Session.ShutdownServerNow(env, old(View()))
    {
      var called := CallCommand(ShutdownServer);
      ok := WaitServer();
    }

    // ---- Version negotiation ----

    // The part of a version check that ends the old server.
    method TakeDownServer(callResult: bool) returns (down: bool)
      requires callResult || serverProtocolVersion < IPC_PROTOCOL_VERSION
      modifies this
      ensures (View(), down) == TakeDown(env, old(View()), callResult)
    {
      hide Session.ShutdownServerNow;
      var shutdownResult := true;
      if callResult {
        // The server still answers: its own shutdown comes first.
        shutdownResult := ShutdownServerNow();
      }
      // The launcher kills it otherwise.
      if !shutdownResult || (!callResult && serverProtocolVersion < IPC_PROTOCOL_VERSION) {
        var terminated := ForceTerminateServer();
        if !terminated {
          status := BrokenMessage;
          return false;
        }
        var waited := WaitServer();
      }
      return true;
    }

    method CheckVersionOrRestartServerInternal(input: Input, output: Output) returns (ok: bool, reply: Output)
      modifies this
      ensures (View(), ok, reply) == CheckVersion(env, old(View()), input, output, 0)
    {
      hide Session.Call, Session.EnsureConnection, TakeDown;
      var trial := 0;
      reply := output;
      // The second trial always returns.
      while true
        invariant trial < 2
        invariant CheckVersion(env, old(View()), input, output, 0) == CheckVersion(env, View(), input, reply, trial)
        decreases 2 - trial
      {
        var callResult;
        callResult, reply := Call(input, Plain, reply);

        if !callResult && serverProtocolVersion > IPC_PROTOCOL_VERSION {
          status := VersionMismatch;
          return false, reply;
        }

        var versionUpgraded := serverProductOlder;
        if (callResult && versionUpgraded) || (!callResult && serverProtocolVersion < IPC_PROTOCOL_VERSION) {
          if trial > 0 {
            status := BrokenMessage;
            return false, reply;
          }
          trace := trace.(reboots := trace.reboots + 1);
          var down := TakeDownServer(callResult);
          if !down {
            return false, reply;
          }

          status := Unknown;
          var connected := EnsureConnection();
          if !connected {
            status := VersionMismatch;
            return false, reply;
          }
          trial := trial + 1;
          continue;
        }

        return callResult, reply;
      }
    }

    method CheckVersionOrRestartServer() returns (ok: bool)
      modifies this
      ensures (View(), ok) == CheckVersionOrRestart(env, old(View()))
    {
      hide CheckVersion, Session.EnsureConnection;
      var checked, reply := CheckVersionOrRestartServerInternal(Input(NoOperation, 0, 0), BLANK);
      if !checked {
        var connected := EnsureConnection();
        if !connected {
          return false;
        }
      }
      return true;
    }

    // ---- Sessions ----

    method CreateSession() returns (ok: bool)
      modifies this
      ensures (View(), ok) == CreateNewSession(env, old(View()))
    {
      hide CheckVersion;
      id := 0;
      var checked, reply := CheckVersionOrRestartServerInternal(Input(Command.CreateSession, 0, 0), BLANK);
      if !checked {
        return false;
      }
      if !reply.succeeded {
        status := InvalidSession;
        return false;
      }
      id := reply.id;
      return true;
    }

    method EnsureSession() returns (ok: bool)
      modifies this
      ensures (View(), ok) == Session.EnsureSession(env, old(View()), hasRequest)
    {
      hide CreateNewSession, Session.EnsureConnection, Session.Call;
      var connected := EnsureConnection();
      if !connected {
        return false;
      }
      if status == Ok {
        return true;
      }
      var created := CreateSession();
      if !created {
        // Turns a failure into SERVER_FATAL, with its report.
        connected := EnsureConnection();
        return false;
      }
      if hasRequest {
        var called, reply := Call(Input(SetRequest, id, 0), Plain, BLANK);
      }
      status := Ok;
      return true;
    }

    // ---- The journal ----

    method ResetHistory()
      modifies this`historyInputs, this`trace
      ensures View() == Session.ResetHistory(old(View()))
    {
      historyInputs := [];
      trace := trace.(consumed := []);
    }

    method PushHistory(input: Input, output: Output)
      modifies this`historyInputs, this`lastMode, this`trace
      ensures View() == Session.PushHistory(old(View()), input, output)
    {
      if !output.consumed {
        return;
      }
      if output.hasMode {
        lastMode := output.mode;
      }
      if |historyInputs| < MAX_PLAYBACK_SIZE {
        historyInputs := historyInputs + [input];
      }
      trace := trace.(consumed := trace.consumed + [input]);
      // A result ends what the journal has to restore.
      if input.kind == SendKey && output.hasResult {
        ResetHistory();
      }
    }

    method PlaybackHistory()
      modifies this
      ensures View() == Session.PlaybackHistory(env, old(View()))
    {
      hide Session.Call;
      if |historyInputs| >= MAX_PLAYBACK_SIZE {
        ResetHistory();
        return;
      }
      var output := BLANK;
      var i := 0;
      while i < |historyInputs|
        invariant i <= |historyInputs|
        invariant Replay(env, old(View()), 0, BLANK) == Replay(env, View(), i, output)
        decreases |historyInputs| - i
      {
        historyInputs := historyInputs[i := historyInputs[i].(id := id)];
        SessionTheorems.CallOutcome(env, View(), historyInputs[i], ForPlayback, output);
        var called;
        called, output := Call(historyInputs[i], ForPlayback, output);
        if !called {
          break;
        }
        i := i + 1;
      }
    }

    // ---- A command with a session ----

    method EnsureCallCommand(input: Input, output: Output) returns (ok: bool, reply: Output)
      modifies this
      ensures (View(), ok, reply) == Session.EnsureCallCommand(env, old(View()), hasRequest, input, output)
    {
      hide Session.EnsureSession, Session.CallAndCheckVersion, Session.SecondTrial, Session.PushHistory;
      reply := output;
      var ready := EnsureSession();
      if !ready {
        return false, reply;
      }

      var stamped := input.(id := id);
      reply := reply.(id := 0);
      var called;
      called, reply := CallAndCheckVersion(stamped, reply);
      if called && reply.id != stamped.id {
        status := InvalidSession;
      }

      // Three outcomes: lost, to be tried once more, or answered.
      if status.Failed() {
        return false, reply;
      }

      if status == Shutdown || status == InvalidSession {
        ok, reply := SecondTrial(input, reply);
        return;
      }

      PushHistory(stamped, reply);
      return true, reply;
    }

    // The rest of EnsureCallCommand when the server or the session has to be made anew.
    method SecondTrial(input: Input, output: Output) returns (ok: bool, reply: Output)
      modifies this
      ensures (View(), ok, reply) == Session.SecondTrial(env, old(View()), hasRequest, input, output)
    {
      hide Session.EnsureSession, Session.CallAndCheckVersion, Session.PlaybackHistory, Session.PushHistory;
      reply := output;
      var ready := EnsureSession();
      if !ready {
        return false, reply;
      }
      // The new session is brought to where the old one was.
      PlaybackHistory();
      var stamped := input.(id := id);
      var called;
      called, reply := CallAndCheckVersion(stamped, reply);
      if !called {
        historyInputs := historyInputs + [stamped];
        // The input joins the journal only to be dropped with it.
        ResetHistory();
        return false, reply;
      }
      PushHistory(stamped, reply);
      return true, reply;
    }

    method Reset()
      modifies this
      ensures View() == Session.Reset(old(View()))
    {
      status := Unknown;
      serverProtocolVersion := 0;
      serverProcessId := 0;
    }
  }
}
