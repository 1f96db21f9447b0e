/**
 The functions of Session case by case, and what a command makes of its journal: which inputs it
 replays, where in the order of events, and which it keeps.
 */
module SessionCases {
  import opened Session
  import opened SessionTheorems

  // ---- The launcher ----

  // A server is started exactly where it is unknown or gone; a failure is reported once, on the way
  // into SERVER_FATAL.
  lemma ConnectionCases(env: Environment, s: State)
    ensures var (t, ok) := EnsureConnection(env, s);
      && (s.status == Ok || s.status == InvalidSession ==> t == s && ok)
      && (s.status == Fatal ==> t == s && !ok)
      && (s.status == Timeout || s.status == BrokenMessage || s.status == VersionMismatch ==>
            !ok && t == s.(status := Fatal, trace := s.trace.(reports := s.trace.reports + 1),
                           log := s.log + [Reported]))
      && (s.status == Shutdown || s.status == Unknown ==>
            && ok == env(s.clock).started
            && t == (if ok
                     then s.(status := InvalidSession, clock := s.clock + 1,
                             trace := s.trace.(starts := s.trace.starts + 1), log := s.log + [Started])
                     else s.(status := Fatal, clock := s.clock + 1,
                             trace := s.trace.(starts := s.trace.starts + 1, reports := s.trace.reports + 1),
                             log := s.log + [Started, Reported])))
  {}

  // ---- One request ----

  // Whether a request goes out, whether it succeeds, and the status that each failure leaves.
  lemma CallCases(env: Environment, s: State, input: Input, why: Purpose, out: Output, a: Answer, goes: bool)
    requires !(s.status in {Timeout, VersionMismatch, BrokenMessage, Fatal})
    requires a == env(s.clock) && goes == (a.clientMade && a.connected && a.protocol == 3)
    ensures var (t, ok, o) := Call(env, s, input, why, out);
      && ok == (goes && a.callSucceeded && a.parsed)
      && o == (if goes && a.callSucceeded then a.output else out)
      && t == s.(
           status := if !a.clientMade then Fatal
                     else if !a.connected then (if s.status == Unknown then Unknown else Shutdown)
                     else if a.protocol != 3 then s.status
                     else if !a.callSucceeded then (if a.timedOut then Timeout else Shutdown)
                     else if !a.parsed then BrokenMessage else s.status,
           clock := s.clock + 1,
           protocol := if a.clientMade && a.connected then a.protocol else 3,
           olderProduct := a.clientMade && a.connected && a.olderProduct,
           processId := if a.clientMade && a.connected then a.processId else 0,
           trace := if goes && why == ForCaller then s.trace.(sent := s.trace.sent + [input])
                    else if goes && why == ForPlayback then s.trace.(replayed := s.trace.replayed + [input])
                    else s.trace,
           log := if goes then s.log + [Sent(why, input)] else s.log)
  {
    LogCases(s.trace, input, why);
    hide Logged;
  }

  lemma LogCases(t: Trace, input: Input, why: Purpose)
    ensures Logged(t, input, why)
         == if why == ForCaller then t.(sent := t.sent + [input])
            else if why == ForPlayback then t.(replayed := t.replayed + [input]) else t
  {}

  lemma FailedCall(env: Environment, s: State, input: Input, why: Purpose, out: Output)
    requires s.status in {Timeout, VersionMismatch, BrokenMessage, Fatal}
    ensures Call(env, s, input, why, out) == (s, false, out)
  {}

  lemma CheckedCallCases(env: Environment, s: State, input: Input, out: Output)
    ensures var (t, ok, o) := Call(env, s, input, ForCaller, out);
      CallAndCheckVersion(env, s, input, out)
        == (if !ok && t.protocol != 3 then t.(status := VersionMismatch) else t, ok, o)
  {
    hide Call;
  }

  // ---- Taking a server down ----

  lemma ShutdownCases(env: Environment, s: State, kind: Command)
    ensures var c := Call(env, s, Input(kind, s.id, 0), Plain, Output(0, false, 0, false, false, true));
      CallCommand(env, s, kind) == (c.0, c.1)
    ensures var c := Call(env, s, Input(ShutdownServer, s.id, 0), Plain, Output(0, false, 0, false, false, true));
      ShutdownServerNow(env, s) == (c.0.(clock := c.0.clock + 1, log := c.0.log + [Waited]), env(c.0.clock).waited)
  {
    hide Call;
  }

  // A server that answered and goes away by itself is not killed; any other one is.
  lemma TakeDownCases(env: Environment, s: State, answered: bool, t: State, gone: bool)
    requires answered ==> (t, gone) == ShutdownServerNow(env, s)
    requires !answered ==> t == s && !gone
    ensures TakeDown(env, s, answered)
         == if gone then (t, true)
            else if env(t.clock).terminated
              then (t.(clock := t.clock + 2, log := t.log + [Killed, Waited]), true)
              else (t.(clock := t.clock + 1, log := t.log + [Killed], status := BrokenMessage), false)
  {
    hide ShutdownServerNow;
    assert t.log + [Killed] + [Waited] == t.log + [Killed, Waited];
  }

  // ---- Version negotiation ----

  // The first request of a check. An older server, or one with an older product, is taken down and
  // started again once; a newer one, or a second older one, fails the check.
  lemma CheckCases(env: Environment, s: State, input: Input, out: Output, trial: nat, t: State, ok: bool, o: Output)
    requires trial < 2 && (t, ok, o) == Call(env, s, input, Plain, out)
    ensures var r := CheckVersion(env, s, input, out, trial);
      && (ok && !t.olderProduct ==> r == (t, true, o))
      && (!ok && t.protocol == 3 ==> r == (t, false, o))
      && (!ok && t.protocol > 3 ==> r == (t.(status := VersionMismatch), false, o))
      && (((ok && t.olderProduct) || (!ok && t.protocol < 3)) && trial == 1 ==>
            r == (t.(status := BrokenMessage), false, o))
      && (((ok && t.olderProduct) || (!ok && t.protocol < 3)) && trial == 0 ==>
            var (u, down) := TakeDown(env, t.(trace := t.trace.(reboots := t.trace.reboots + 1)), ok);
            var (v, up) := EnsureConnection(env, u.(status := Unknown));
            r == if !down then (u, false, o)
                 else if !up then (v.(status := VersionMismatch), false, o)
                 else CheckVersion(env, v, input, o, 1))
  {
    hide Call, TakeDown, EnsureConnection;
  }

  lemma RestartCases(env: Environment, s: State)
    ensures var blank := Output(0, false, 0, false, false, true);
      var (t, ok, o) := CheckVersion(env, s, Input(NoOperation, 0, 0), blank, 0);
      CheckVersionOrRestart(env, s) == if ok then (t, true) else EnsureConnection(env, t)
  {
    hide CheckVersion, EnsureConnection;
  }

  // ---- Sessions ----

  lemma CreateCases(env: Environment, s: State, t: State, ok: bool, o: Output)
    requires (t, ok, o) == CheckVersion(env, s.(id := 0), Input(CreateSession, 0, 0),
                                        Output(0, false, 0, false, false, true), 0)
    ensures CreateNewSession(env, s)
         == if !ok then (t, false)
            else if !o.succeeded then (t.(status := InvalidSession), false)
            else (t.(id := o.id), true)
  {
    hide CheckVersion;
  }

  lemma EnsureSessionCases(env: Environment, s: State, hasRequest: bool,
                           t: State, connected: bool, u: State, made: bool)
    requires (t, connected) == EnsureConnection(env, s) && (u, made) == CreateNewSession(env, t)
    ensures var blank := Output(0, false, 0, false, false, true);
      EnsureSession(env, s, hasRequest)
         == if !connected then (t, false)
            else if t.status == Ok then (t, true)
            else if !made then (EnsureConnection(env, u).0, false)
            else if !hasRequest then (u.(status := Ok), true)
            else (Call(env, u, Input(SetRequest, u.id, 0), Plain, blank).0.(status := Ok), true)
  {
    hide EnsureConnection, CreateNewSession, Call;
  }

  // ---- The journal ----

  // An input the server consumed joins the journal while there is room, and ends it when it is a key
  // that brought a result.
  lemma PushCases(s: State, input: Input, out: Output)
    ensures PushHistory(s, input, out)
         == if !out.consumed then s
            else if input.kind == SendKey && out.hasResult
            then s.(lastMode := if out.hasMode then out.mode else s.lastMode, history := [],
                    trace := s.trace.(consumed := []))
            else s.(lastMode := if out.hasMode then out.mode else s.lastMode,
                    history := if |s.history| < 512 then s.history + [input] else s.history,
                    trace := s.trace.(consumed := s.trace.consumed + [input]))
  {}

  // The journal is exact: it holds the oldest 512 of the inputs consumed, session ids aside.
  lemma ExactMeans(s: State)
    ensures JournalExact(s) <==>
      && |s.history| == (if |s.trace.consumed| < 512 then |s.trace.consumed| else 512)
      && forall i | 0 <= i < |s.history| :: s.history[i].(id := 0) == s.trace.consumed[i].(id := 0)
  {
    var h, c := Unstamped(s.history), Unstamped(Oldest(s.trace.consumed));
    assert |h| == |s.history| && forall i | 0 <= i < |h| :: h[i] == s.history[i].(id := 0);
    assert forall i | 0 <= i < |c| :: c[i] == s.trace.consumed[i].(id := 0);
  }

  lemma StampedIs(inputs: seq<Input>, id: nat, i: nat)
    requires i < |inputs|
    ensures Stamped(inputs, id)[i] == inputs[i].(id := id)
    ensures Replays(inputs)[i] == Sent(ForPlayback, inputs[i])
  {}

  lemma ResetCases(s: State)
    ensures FRESH.status == Unknown && FRESH.id == 0 && FRESH.history == []
    ensures ResetHistory(s) == s.(history := [], trace := s.trace.(consumed := []))
    ensures Reset(s) == s.(status := Unknown, protocol := 0, processId := 0)
  {}

  // ---- A command ----

  // What the first of two trials comes to: t is where it leaves the client.
  lemma CommandCases(env: Environment, s: State, hasRequest: bool, input: Input, out: Output,
                     r: State, ready: bool, t: State, ok: bool, o: Output)
    requires (r, ready) == EnsureSession(env, s, hasRequest)
    requires (t, ok, o) == CallAndCheckVersion(env, r, input.(id := r.id), out.(id := 0))
    ensures EnsureCallCommand(env, s, hasRequest, input, out)
         == if !ready then (r, false, out)
            else if ok && o.id == r.id then (PushHistory(t, input.(id := r.id), o), true, o)
            else if ok then SecondTrial(env, t.(status := InvalidSession), hasRequest, input, o)
            else if t.status == Shutdown then SecondTrial(env, t, hasRequest, input, o)
            else (t, false, o)
  {
    hide *;
    SessionKeeps(env, s, hasRequest);
    CheckedCallOutcome(env, r, input.(id := r.id), out.(id := 0));
    CommandUnfolds(env, s, hasRequest, input, out);
    FailedIs(t.status);
    FailedIs(InvalidSession);
  }

  // SERVER_TIMEOUT and what comes after it.
  lemma FailedIs(status: Status)
    ensures status.Failed() <==> status in {Timeout, VersionMismatch, BrokenMessage, Fatal}
  {}

  lemma CommandUnfolds(env: Environment, s: State, hasRequest: bool, input: Input, out: Output)
    ensures var (s1, ready) := EnsureSession(env, s, hasRequest);
      var (s2, ok, o) := CallAndCheckVersion(env, s1, input.(id := s1.id), out.(id := 0));
      var s3 := if ok && o.id != s1.id then s2.(status := InvalidSession) else s2;
      EnsureCallCommand(env, s, hasRequest, input, out)
        == if !ready then (s1, false, out)
           else if s3.status.Failed() then (s3, false, o)
           else if s3.status == Shutdown || s3.status == InvalidSession then SecondTrial(env, s3, hasRequest, input, o)
           else (PushHistory(s3, input.(id := s1.id), o), true, o)
  {
    hide EnsureSession, CallAndCheckVersion, SecondTrial, PushHistory;
  }

  // The second: the journal is played back under the new session before the input goes out again.
  lemma SecondTrialCases(env: Environment, s: State, hasRequest: bool, input: Input, out: Output,
                         r: State, again: bool, t: State, ok: bool, o: Output)
    requires (r, again) == EnsureSession(env, s, hasRequest)
    requires again ==> (t, ok, o) == CallAndCheckVersion(env, PlaybackHistory(env, r), input.(id := r.id), out)
    ensures SecondTrial(env, s, hasRequest, input, out)
         == if !again then (r, false, out)
            else if ok then (PushHistory(t, input.(id := r.id), o), true, o)
            else (t.(history := [], trace := t.trace.(consumed := [])), false, o)
  {
    hide EnsureSession, CallAndCheckVersion, PlaybackHistory, PushHistory;
    if again {
      EnsureSessionOutcome(env, s, hasRequest);
      PlaybackIsQuiet(env, r);
    }
  }

  // A first send that ended with the server gone, or was answered for another session, and then a
  // new session: the inputs consumed so far are sent again under its id, all of them unless that is
  // interrupted, and none of more than 511. The input itself comes after them, and with the answer to
  // it the command succeeds.
  lemma CommandReplays(env: Environment, s: State, hasRequest: bool, input: Input, out: Output) returns (sent: nat)
    requires JournalExact(s)
    ensures var c := s.trace.consumed;
      var (r, ready) := EnsureSession(env, s, hasRequest);
      var (t, ok, o) := CallAndCheckVersion(env, r, input.(id := r.id), out.(id := 0));
      var (u, again) := EnsureSession(env, if ok then t.(status := InvalidSession) else t, hasRequest);
      var p := PlaybackHistory(env, u);
      var (v, done, reply) := EnsureCallCommand(env, s, hasRequest, input, out);
      ready && (if ok then o.id != r.id else t.status == Shutdown) && again ==>
        && v.id == u.id && sent <= |c|
        && v.trace.replayed == s.trace.replayed + Stamped(c[..sent], v.id)
        && (|c| >= 512 ==> sent == 0)
        && (|c| < 512 && p.status == Ok && p.protocol == 3 ==> sent == |c|)
        && p.log == u.log + Replays(Stamped(c[..sent], v.id))
        && (v.log == p.log || v.log == p.log + [Sent(ForCaller, input.(id := v.id))])
        && (done ==> v.log == p.log + [Sent(ForCaller, input.(id := v.id))])
        && done == CallAndCheckVersion(env, p, input.(id := u.id), o).1
        && (!done ==> v.trace.consumed == [] && v.history == [])
  {
    hide *;
    sent := 0;
    var (r, ready) := EnsureSession(env, s, hasRequest);
    var (t, ok, o) := CallAndCheckVersion(env, r, input.(id := r.id), out.(id := 0));
    var s3 := if ok then t.(status := InvalidSession) else t;
    var (u, again) := EnsureSession(env, s3, hasRequest);
    var p := PlaybackHistory(env, u);
    if ready && (if ok then o.id != r.id else t.status == Shutdown) && again {
      SessionKeeps(env, s, hasRequest);
      CheckedCallLog(env, r, input.(id := r.id), out.(id := 0));
      SessionKeeps(env, s3, hasRequest);
      SameJournal(s, u);
      sent := PlayedBack(env, u, p);
      CommandCases(env, s, hasRequest, input, out, r, true, t, ok, o);
      SecondTrialReplays(env, s3, hasRequest, input, o, u, p);
    }
  }

  // Making sure of a session leaves the journal, and what was sent from it, alone.
  lemma SessionKeeps(env: Environment, s: State, hasRequest: bool)
    ensures var (t, ok) := EnsureSession(env, s, hasRequest);
      && (ok <==> t.status == Ok)
      && t.history == s.history && t.trace.consumed == s.trace.consumed
      && t.trace.replayed == s.trace.replayed && t.trace.sent == s.trace.sent
  {
    hide EnsureSession;
    EnsureSessionOutcome(env, s, hasRequest);
  }

  lemma PlaybackKeeps(env: Environment, s: State)
    requires s.status == Ok
    ensures PlaybackHistory(env, s).id == s.id
  {
    hide PlaybackHistory;
    PlaybackIsQuiet(env, s);
  }

  lemma PlayedBack(env: Environment, u: State, p: State) returns (sent: nat)
    requires JournalExact(u) && u.status == Ok && p == PlaybackHistory(env, u)
    ensures sent <= |u.trace.consumed|
    ensures p.trace.replayed == u.trace.replayed + Stamped(u.trace.consumed[..sent], u.id)
    ensures p.log == u.log + Replays(Stamped(u.trace.consumed[..sent], u.id))
    ensures |u.trace.consumed| >= 512 ==> sent == 0
    ensures |u.trace.consumed| < 512 && p.status == Ok && p.protocol == 3 ==> sent == |u.trace.consumed|
    ensures |u.trace.consumed| < 512 ==> p.trace.consumed == u.trace.consumed
    ensures |u.trace.consumed| >= 512 ==> p.trace.consumed == [] && p.history == []
  {
    hide PlaybackHistory, JournalExact, Stamped, Replays;
    var done;
    done, sent := PlaybackOutcome(env, u);
  }

  lemma SecondTrialReplays(env: Environment, s: State, hasRequest: bool, input: Input, out: Output, u: State, p: State)
    requires EnsureSession(env, s, hasRequest) == (u, true) && p == PlaybackHistory(env, u)
    ensures var (v, done, reply) := SecondTrial(env, s, hasRequest, input, out);
      && v.id == u.id && v.trace.replayed == p.trace.replayed
      && (v.log == p.log || v.log == p.log + [Sent(ForCaller, input.(id := v.id))])
      && (done ==> v.log == p.log + [Sent(ForCaller, input.(id := v.id))])
      && done == CallAndCheckVersion(env, p, input.(id := u.id), out).1
      && (!done ==> v.trace.consumed == [] && v.history == [])
  {
    hide *;
    SessionKeeps(env, s, hasRequest);
    PlaybackKeeps(env, u);
    var (t, ok, o) := CallAndCheckVersion(env, p, input.(id := u.id), out);
    SecondTrialCases(env, s, hasRequest, input, out, u, true, t, ok, o);
    CheckedCallLog(env, p, input.(id := u.id), out);
    PushCases(t, input.(id := u.id), o);
  }

  lemma CheckedCallLog(env: Environment, s: State, input: Input, out: Output)
    ensures var (t, ok, o) := CallAndCheckVersion(env, s, input, out);
      && t.id == s.id && t.trace.replayed == s.trace.replayed && t.trace.consumed == s.trace.consumed
      && t.history == s.history
      && (t.log == s.log || t.log == s.log + [Sent(ForCaller, input)])
      && (ok ==> t.log == s.log + [Sent(ForCaller, input)])
  {
    hide Call;
    CallOutcome(env, s, input, ForCaller, out);
  }

  // In every other case nothing is replayed, and without the first session nothing is sent.
  lemma CommandReplaysNothing(env: Environment, s: State, hasRequest: bool, input: Input, out: Output,
                              r: State, ready: bool, t: State, ok: bool, o: Output, again: bool)
    requires (r, ready) == EnsureSession(env, s, hasRequest)
    requires (t, ok, o) == CallAndCheckVersion(env, r, input.(id := r.id), out.(id := 0))
    requires again == EnsureSession(env, if ok then t.(status := InvalidSession) else t, hasRequest).1
    requires !ready || (ok && o.id == r.id) || (!ok && t.status != Shutdown) || !again
    ensures var (v, done, reply) := EnsureCallCommand(env, s, hasRequest, input, out);
      && v.trace.replayed == s.trace.replayed
      && done == (ready && ok && o.id == r.id)
      && (!ready ==> v == r && v.trace.sent == s.trace.sent)
      && (!done ==> v.trace.consumed == s.trace.consumed && v.history == s.history)
  {
    hide *;
    SessionKeeps(env, s, hasRequest);
    CheckedCallOutcome(env, r, input.(id := r.id), out.(id := 0));
    CheckedCallLog(env, r, input.(id := r.id), out.(id := 0));
    CommandCases(env, s, hasRequest, input, out, r, ready, t, ok, o);
    PushCases(t, input.(id := r.id), o);
    var s3 := if ok then t.(status := InvalidSession) else t;
    SessionKeeps(env, s3, hasRequest);
    if !again {
      SecondTrialCases(env, s3, hasRequest, input, o, EnsureSession(env, s3, hasRequest).0, false, t, ok, o);
    }
  }

  // What a command that succeeds adds to the inputs consumed: its own, if the server consumed it.
  // One that was tried again and failed drops them all, as does a full journal.
  lemma CommandConsumes(env: Environment, s: State, hasRequest: bool, input: Input, out: Output,
                        r: State, t: State, ok: bool, o: Output)
    requires JournalExact(s)
    requires EnsureSession(env, s, hasRequest) == (r, true)
    requires (t, ok, o) == CallAndCheckVersion(env, r, input.(id := r.id), out.(id := 0))
    ensures var (v, done, reply) := EnsureCallCommand(env, s, hasRequest, input, out);
      var c := if (ok && o.id == r.id) || |s.trace.consumed| < 512 then s.trace.consumed else [];
      && (done ==>
            v.trace.consumed == (if !reply.consumed then c
                                 else if input.kind == SendKey && reply.hasResult then []
                                 else c + [input.(id := v.id)]))
      && (!done && v.trace.consumed != s.trace.consumed ==> v.trace.consumed == [] && v.history == [])
  {
    hide *;
    SessionKeeps(env, s, hasRequest);
    CheckedCallLog(env, r, input.(id := r.id), out.(id := 0));
    CommandCases(env, s, hasRequest, input, out, r, true, t, ok, o);
    PushCases(t, input.(id := r.id), o);
    var s3 := if ok then t.(status := InvalidSession) else t;
    SessionKeeps(env, s3, hasRequest);
    SameJournal(s, s3);
    SecondTrialConsumes(env, s3, hasRequest, input, o);
  }

  lemma SecondTrialConsumes(env: Environment, s: State, hasRequest: bool, input: Input, out: Output)
    requires JournalExact(s)
    ensures var (v, done, reply) := SecondTrial(env, s, hasRequest, input, out);
      var c := if |s.trace.consumed| < 512 then s.trace.consumed else [];
      && (done ==>
            v.trace.consumed == (if !reply.consumed then c
                                 else if input.kind == SendKey && reply.hasResult then []
                                 else c + [input.(id := v.id)]))
      && (!done && v.trace.consumed != s.trace.consumed ==> v.trace.consumed == [] && v.history == [])
  {
    hide *;
    var (u, again) := EnsureSession(env, s, hasRequest);
    SessionKeeps(env, s, hasRequest);
    SameJournal(s, u);
    if again {
      var p := PlaybackHistory(env, u);
      var sent := PlayedBack(env, u, p);
      PlaybackKeeps(env, u);
      var (t, ok, o) := CallAndCheckVersion(env, p, input.(id := u.id), out);
      SecondTrialCases(env, s, hasRequest, input, out, u, true, t, ok, o);
      CheckedCallLog(env, p, input.(id := u.id), out);
      PushCases(t, input.(id := u.id), o);
    } else {
      SecondTrialCases(env, s, hasRequest, input, out, u, false, s, false, out);
    }
  }

  // ---- A replay ----

  // A server that goes away under the first request, and is started again.
  function LostOnce(n: nat): Answer {
    FINE.(callSucceeded := n != 0, output := FINE.output.(id := 2))
  }

  // A client with session 1 and one input in its journal sends another one, loses the server, and in
  // session 2 sends both, in order.
  lemma ReplayHappens(s: State, k1: Input, k2: Input)
    requires s == FRESH.(status := Ok, id := 1, history := [k1], trace := FRESH.trace.(consumed := [k1]))
    ensures var (t, ok, o) := EnsureCallCommand(LostOnce, s, false, k2, BLANK);
      && ok && o.id == 2 && t.trace.replayed == [k1.(id := 2)]
      && t.log == [Sent(ForCaller, k2.(id := 1)), Started, Sent(Plain, Input(CreateSession, 0, 0)),
                   Sent(ForPlayback, k1.(id := 2)), Sent(ForCaller, k2.(id := 2))]
  {
    hide EnsureSession, CallAndCheckVersion, PlaybackHistory, EnsureCallCommand, SecondTrial, PushHistory, LostOnce;
    var (t, ok, o) := CallAndCheckVersion(LostOnce, s, k2.(id := 1), BLANK.(id := 0));
    FirstSend(s, k2);
    var u := EnsureSession(LostOnce, t, false).0;
    SecondSession(t);
    var p := PlaybackHistory(LostOnce, u);
    OneReplay(u, k1);
    var (v, done, reply) := CallAndCheckVersion(LostOnce, p, k2.(id := 2), o);
    SecondSend(p, k2, o);
    CommandCases(LostOnce, s, false, k2, BLANK, s, true, t, ok, o);
    SecondTrialCases(LostOnce, t, false, k2, o, u, true, v, done, reply);
    PushCases(v, k2.(id := 2), reply);
  }

  lemma FirstSend(s: State, k2: Input)
    requires s.status == Ok && s.clock == 0 && s.id == 1
    ensures EnsureSession(LostOnce, s, false) == (s, true)
    ensures var (t, ok, o) := CallAndCheckVersion(LostOnce, s, k2.(id := 1), BLANK.(id := 0));
      && !ok && t.status == Shutdown && t.clock == 1 && t.history == s.history
      && t.trace == s.trace.(sent := s.trace.sent + [k2.(id := 1)])
      && t.log == s.log + [Sent(ForCaller, k2.(id := 1))]
  {}

  lemma SecondSend(p: State, k2: Input, out: Output)
    requires p.status == Ok && p.clock == 4
    ensures var (v, done, reply) := CallAndCheckVersion(LostOnce, p, k2.(id := 2), out);
      && done && reply.id == 2
      && v.trace == p.trace.(sent := p.trace.sent + [k2.(id := 2)])
      && v.log == p.log + [Sent(ForCaller, k2.(id := 2))]
  {}

  lemma SecondSession(t: State)
    requires t.status == Shutdown && t.clock == 1
    ensures var (u, again) := EnsureSession(LostOnce, t, false);
      && again && u.status == Ok && u.id == 2 && u.clock == 3 && u.history == t.history
      && u.trace == t.trace.(starts := t.trace.starts + 1)
      && u.log == t.log + [Started, Sent(Plain, Input(CreateSession, 0, 0))]
  {}

  lemma OneReplay(u: State, k1: Input)
    requires u.status == Ok && u.id == 2 && u.clock == 3 && u.history == [k1]
    ensures var p := PlaybackHistory(LostOnce, u);
      && p.status == Ok && p.id == 2 && p.clock == 4 && p.history == [k1.(id := 2)]
      && p.trace == u.trace.(replayed := u.trace.replayed + [k1.(id := 2)])
      && p.log == u.log + [Sent(ForPlayback, k1.(id := 2))]
  {
    var env: Environment := LostOnce;
    var entry := k1.(id := 2);
    var s0 := u.(history := [entry]);
    assert u.history[0 := entry] == [entry];
    var (s1, ok, o) := Call(env, s0, entry, ForPlayback, BLANK);
    assert ok && s1.clock == 4 && s1.history == [entry];
    assert Replay(env, s1, 1, o) == s1;
  }
}
