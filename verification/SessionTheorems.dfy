/**
 What the protocol of Session keeps, step by step and over whole runs.
 */
module SessionTheorems {
  import opened Session

  // ---- One step at a time ----

  // Nothing was started, reported or rebooted, and no caller's input or journal entry sent.
  predicate Quiet(t: Trace, u: Trace) {
    u == t.(consumed := u.consumed)
  }

  lemma CallOutcome(env: Environment, s: State, input: Input, why: Purpose, out: Output)
    ensures var (t, ok, o) := Call(env, s, input, why, out);
      && SameSession(s, t)
      && ((t.trace == s.trace && t.log == s.log)
          || (t.trace == Logged(s.trace, input, why) && t.log == s.log + [Sent(why, input)]))
      && (s.status.Failed() ==> t == s && !ok)
      && (ok ==> t.status == s.status && t.protocol == IPC_PROTOCOL_VERSION
                 && t.trace == Logged(s.trace, input, why) && t.log == s.log + [Sent(why, input)]
                 && t.clock == s.clock + 1 && o == env(s.clock).output)
      && (!ok && t.status == s.status && !s.status.Failed() ==>
            s.status == Unknown || s.status == Shutdown || t.protocol != IPC_PROTOCOL_VERSION)
      && (t.status != s.status ==> t.status == Shutdown || t.status.Failed())
  {}

  // EnsureConnection fails exactly when it ends in SERVER_FATAL.
  lemma EnsureConnectionOutcome(env: Environment, s: State)
    ensures var (t, ok) := EnsureConnection(env, s);
      && (!ok <==> t.status == Fatal)
      && (ok ==> t.status == (if s.status == Ok then Ok else InvalidSession) && t.trace.reports == s.trace.reports)
      && (s.status == Fatal ==> t == s)
      && (s.status.Failed() ==> !ok)
      && (!ok && s.status != Fatal ==> t.trace.reports == s.trace.reports + 1)
      && SameSession(s, t)
      && Quiet(s.trace.(starts := t.trace.starts, reports := t.trace.reports), t.trace)
      && s.trace.starts <= t.trace.starts
      && t.trace.starts <= s.trace.starts + if s.status == Shutdown || s.status == Unknown then 1 else 0
  {}

  lemma TakeDownOutcome(env: Environment, s: State, answered: bool)
    ensures var (t, down) := TakeDown(env, s, answered);
      SameSession(s, t) && Quiet(s.trace, t.trace) && (!down ==> t.status == BrokenMessage)
  {
    CallOutcome(env, s, Input(ShutdownServer, s.id, 0), Plain, BLANK);
  }

  lemma SecondCheckOutcome(env: Environment, s: State, input: Input, out: Output)
    ensures var (t, ok, o) := CheckVersion(env, s, input, out, 1);
      && SameSession(s, t) && Quiet(s.trace, t.trace)
      && (ok ==> t.status == s.status)
      && (!ok && s.status == InvalidSession ==> t.status != Ok)
  {
    hide Call;
    CallOutcome(env, s, input, Plain, out);
  }

  // One version check reboots at most one server, and reports at most once, on its way to fail.
  lemma CheckVersionOutcome(env: Environment, s: State, input: Input, out: Output)
    ensures var (t, ok, o) := CheckVersion(env, s, input, out, 0);
      && SameSession(s, t)
      && Quiet(s.trace.(starts := t.trace.starts, reports := t.trace.reports, reboots := t.trace.reboots), t.trace)
      && s.trace.starts <= t.trace.starts <= s.trace.starts + 1
      && s.trace.reboots <= t.trace.reboots <= s.trace.reboots + 1
      && (t.trace.reports == s.trace.reports
          || (t.trace.reports == s.trace.reports + 1 && !ok && t.status == VersionMismatch))
      && (ok && s.status == InvalidSession ==> t.status == InvalidSession)
      && (!ok && s.status == InvalidSession ==> t.status != Ok)
  {
    hide Call, TakeDown, EnsureConnection;
    CallOutcome(env, s, input, Plain, out);
    var (s1, ok, o) := Call(env, s, input, Plain, out);
    if (ok && s1.olderProduct) || (!ok && s1.protocol < IPC_PROTOCOL_VERSION) {
      var s1' := s1.(trace := s1.trace.(reboots := s1.trace.reboots + 1));
      TakeDownOutcome(env, s1', ok);
      var (s2, down) := TakeDown(env, s1', ok);
      EnsureConnectionOutcome(env, s2.(status := Unknown));
      var (s3, up) := EnsureConnection(env, s2.(status := Unknown));
      SecondCheckOutcome(env, s3, input, o);
    }
  }

  // EnsureSession succeeds exactly when it ends in SERVER_OK; otherwise it ends in SERVER_FATAL, or
  // in SERVER_INVALID_SESSION for a later call to try again.
  lemma EnsureSessionOutcome(env: Environment, s: State, hasRequest: bool)
    ensures var (t, ok) := EnsureSession(env, s, hasRequest);
      && (ok <==> t.status == Ok)
      && (!ok ==> t.status == Fatal || t.status == InvalidSession)
      && (s.status == Fatal ==> t == s)
      && t.history == s.history && t.lastMode == s.lastMode
      && Quiet(s.trace.(starts := t.trace.starts, reports := t.trace.reports, reboots := t.trace.reboots,
                        consumed := t.trace.consumed), t.trace)
      && t.trace.consumed == s.trace.consumed
      && s.trace.starts <= t.trace.starts <= s.trace.starts + (if ok then 2 else 3)
      && s.trace.reboots <= t.trace.reboots <= s.trace.reboots + 1
      && s.trace.reports <= t.trace.reports <= s.trace.reports + 2
      && (t.trace.reports != s.trace.reports ==> t.status == Fatal)
  {
    hide Call, CheckVersion, EnsureConnection;
    EnsureConnectionOutcome(env, s);
    var (s1, connected) := EnsureConnection(env, s);
    if connected && s1.status != Ok {
      CheckVersionOutcome(env, s1.(id := 0), Input(CreateSession, 0, 0), BLANK);
      var (s2, created) := CreateNewSession(env, s1);
      EnsureConnectionOutcome(env, s2);
      CallOutcome(env, s2, Input(SetRequest, s2.id, 0), Plain, BLANK);
    }
  }

  // ---- The journal ----

  function Unstamped(inputs: seq<Input>): (r: seq<Input>)
    ensures |r| == |inputs|
  {
    seq(|inputs|, i requires 0 <= i < |inputs| => inputs[i].(id := 0))
  }

  function Oldest(inputs: seq<Input>): seq<Input> {
    if |inputs| <= MAX_PLAYBACK_SIZE then inputs else inputs[..MAX_PLAYBACK_SIZE]
  }

  // Session ids aside, the journal is the oldest 512 of the inputs consumed since the last reset.
  predicate JournalExact(s: State) {
    Unstamped(s.history) == Unstamped(Oldest(s.trace.consumed))
  }

  lemma PushKeepsJournal(s: State, input: Input, out: Output)
    requires JournalExact(s)
    ensures JournalExact(PushHistory(s, input, out))
  {
    var c := s.trace.consumed;
    if |s.history| < MAX_PLAYBACK_SIZE {
      assert Oldest(c + [input]) == c + [input];
      assert Unstamped(c + [input]) == Unstamped(c) + Unstamped([input]);
      assert Unstamped(s.history + [input]) == Unstamped(s.history) + Unstamped([input]);
    } else {
      assert Oldest(c + [input]) == Oldest(c);
    }
  }

  // A call that failed leaves one of these marks, if the session was sound before.
  predicate Interrupted(t: State) {
    t.status != Ok || t.protocol != IPC_PROTOCOL_VERSION
  }

  // Replaying from entry i sends entries i, i + 1, ..., each under the current session id, up to
  // the end or to the first one whose call fails, which may or may not have gone out itself.
  lemma ReplayOutcome(env: Environment, s: State, i: nat, out: Output) returns (done: nat, sent: nat)
    requires i <= |s.history| && s.status == Ok
    ensures i <= done <= sent <= done + 1 && sent <= |s.history|
    ensures var t := Replay(env, s, i, out);
      && Unstamped(t.history) == Unstamped(s.history)
      && t.id == s.id && t.lastMode == s.lastMode && t.trace.consumed == s.trace.consumed
      && Quiet(s.trace.(replayed := t.trace.replayed), t.trace)
      && (done < |s.history| ==> Interrupted(t))
      && (done == |s.history| ==> t.status == Ok)
      && t.trace.replayed == s.trace.replayed + Stamped(s.history[i..sent], s.id)
      && t.log == s.log + Replays(Stamped(s.history[i..sent], s.id))
    decreases |s.history| - i
  {
    hide Call;
    done, sent := i, i;
    if i < |s.history| {
      var entry := s.history[i].(id := s.id);
      var s0 := s.(history := s.history[i := entry]);
      var (s1, ok, o) := Call(env, s0, entry, ForPlayback, out);
      CallOutcome(env, s0, entry, ForPlayback, out);
      assert Unstamped(s0.history) == Unstamped(s.history);
      if ok {
        done, sent := ReplayOutcome(env, s1, i + 1, o);
        assert Stamped(s.history[i..sent], s.id) == [entry] + Stamped(s1.history[i + 1..sent], s.id);
      } else {
        sent := if s1.trace == s0.trace then i else i + 1;
        assert Stamped(s.history[i..i + 1], s.id) == [entry];
      }
      ReplaysNext(entry, if ok then Stamped(s1.history[i + 1..sent], s.id) else []);
    }
  }

  // The events of sending these journal entries.
  function Replays(inputs: seq<Input>): (r: seq<Event>)
    ensures |r| == |inputs| && forall i | 0 <= i < |r| :: r[i] == Sent(ForPlayback, inputs[i])
  {
    seq(|inputs|, i requires 0 <= i < |inputs| => Sent(ForPlayback, inputs[i]))
  }

  lemma ReplaysNext(entry: Input, rest: seq<Input>)
    ensures Replays([entry] + rest) == [Sent(ForPlayback, entry)] + Replays(rest)
    ensures Replays([]) == [] && Replays([entry]) == [Sent(ForPlayback, entry)]
  {}

  function Stamped(inputs: seq<Input>, id: nat): (r: seq<Input>)
    ensures |r| == |inputs|
  {
    seq(|inputs|, i requires 0 <= i < |inputs| => inputs[i].(id := id))
  }

  // PlaybackHistory sends, in order and under the current session id, the whole journal of inputs
  // consumed since the last reset, or its beginning up to the first failed call; or nothing at all
  // once the journal has reached its limit, when it is dropped. It never sends one with a gap.
  lemma PlaybackOutcome(env: Environment, s: State) returns (done: nat, sent: nat)
    requires JournalExact(s) && s.status == Ok
    ensures done <= sent <= done + 1 && sent <= |s.trace.consumed|
    ensures var t := PlaybackHistory(env, s);
      && JournalExact(t) && t.id == s.id
      && Quiet(s.trace.(replayed := t.trace.replayed, consumed := t.trace.consumed), t.trace)
      && t.trace.replayed == s.trace.replayed + Stamped(s.trace.consumed[..sent], s.id)
      && t.log == s.log + Replays(Stamped(s.trace.consumed[..sent], s.id))
      && (|s.trace.consumed| >= MAX_PLAYBACK_SIZE ==> sent == 0 && t == ResetHistory(s))
      && (|s.trace.consumed| < MAX_PLAYBACK_SIZE ==> t.trace.consumed == s.trace.consumed)
      && (done < |s.trace.consumed| < MAX_PLAYBACK_SIZE ==> Interrupted(t))
      && (done == |s.trace.consumed| < MAX_PLAYBACK_SIZE ==> t.status == Ok)
  {
    hide Replay;
    var c, h := s.trace.consumed, s.history;
    assert |Unstamped(h)| == |Oldest(c)|;
    done, sent := 0, 0;
    if |c| < MAX_PLAYBACK_SIZE {
      done, sent := ReplayOutcome(env, s, 0, BLANK);
      StampedAgree(h, c, sent, s.id);
    }
  }

  // Whatever the journal, playing it back sends nothing else and starts nothing.
  lemma PlaybackIsQuiet(env: Environment, s: State)
    requires s.status == Ok
    ensures var t := PlaybackHistory(env, s);
      t.id == s.id && Quiet(s.trace.(replayed := t.trace.replayed, consumed := t.trace.consumed), t.trace)
  {
    hide Replay;
    var done, sent := ReplayOutcome(env, s, 0, BLANK);
  }

  lemma StampedAgree(h: seq<Input>, c: seq<Input>, n: nat, id: nat)
    requires Unstamped(h) == Unstamped(c) && n <= |h|
    ensures |h| == |c| && Stamped(h[0..n], id) == Stamped(c[..n], id)
  {
    assert |Unstamped(h)| == |Unstamped(c)|;
    forall i | 0 <= i < n ensures Stamped(h[0..n], id)[i] == Stamped(c[..n], id)[i] {
      assert Unstamped(h)[i] == Unstamped(c)[i];
    }
  }

  // ---- One command ----

  // after extends before by at most this input.
  predicate SentAtMost(before: seq<Input>, after: seq<Input>, input: Input) {
    after == before || after == before + [input]
  }

  // after extends before by at most these two inputs, in this order.
  predicate SentAtMostBoth(before: seq<Input>, after: seq<Input>, first: Input, second: Input) {
    SentAtMost(before, after, first) || SentAtMost(before, after, second) || after == before + [first, second]
  }

  // The last input sent was this one under the current session id, and out is the reply to it.
  predicate Answered(env: Environment, t: State, input: Input, out: Output) {
    && |t.trace.sent| > 0 && t.trace.sent[|t.trace.sent| - 1] == input.(id := t.id)
    && t.clock > 0
    && var a := env(t.clock - 1);
       a.connected && a.protocol == IPC_PROTOCOL_VERSION && a.callSucceeded && a.parsed && a.output == out
  }

  lemma CheckedCallOutcome(env: Environment, s: State, input: Input, out: Output)
    requires input.id == s.id
    ensures var (t, ok, o) := CallAndCheckVersion(env, s, input, out);
      && SameSession(s, t)
      && Quiet(s.trace.(sent := t.trace.sent), t.trace)
      && SentAtMost(s.trace.sent, t.trace.sent, input)
      && (ok ==> t.status == s.status && Answered(env, t, input, o) && |t.trace.sent| == |s.trace.sent| + 1)
      && (!ok && s.status == Ok ==> t.status.Failed() || t.status == Shutdown)
  {}

  lemma PushOutcome(env: Environment, s: State, input: Input, out: Output)
    ensures var t := PushHistory(s, input, out);
      && (Answered(env, s, input, out) ==> Answered(env, t, input, out))
      && t.status == s.status && t.id == s.id && t.clock == s.clock
      && t.trace == s.trace.(consumed := t.trace.consumed)
  {}

  lemma StampDoesNotMatter(env: Environment, t: State, input: Input, id: nat, out: Output)
    ensures Answered(env, t, input.(id := id), out) == Answered(env, t, input, out)
  {}

  lemma SecondTrialOutcome(env: Environment, s: State, hasRequest: bool, input: Input, out: Output)
    ensures var (t, ok, o) := SecondTrial(env, s, hasRequest, input, out);
      && SentAtMost(s.trace.sent, t.trace.sent, input.(id := t.id))
      && s.trace.starts <= t.trace.starts <= s.trace.starts + 3
      && s.trace.reboots <= t.trace.reboots <= s.trace.reboots + 1
      && s.trace.reports <= t.trace.reports <= s.trace.reports + 2
      && (t.trace.reports != s.trace.reports ==> !ok && t.status == Fatal)
      && (ok ==> Answered(env, t, input, o) && |t.trace.sent| == |s.trace.sent| + 1)
  {
    hide EnsureSession, PlaybackHistory, CallAndCheckVersion, PushHistory;
    EnsureSessionOutcome(env, s, hasRequest);
    var (s1, ready) := EnsureSession(env, s, hasRequest);
    if ready {
      PlaybackIsQuiet(env, s1);
      var s2 := PlaybackHistory(env, s1);
      var second := input.(id := s2.id);
      CheckedCallOutcome(env, s2, second, out);
      var (s3, ok, o) := CallAndCheckVersion(env, s2, second, out);
      PushOutcome(env, s3, second, o);
    }
  }

  lemma SecondTrialKeepsJournal(env: Environment, s: State, hasRequest: bool, input: Input, out: Output)
    requires JournalExact(s)
    ensures JournalExact(SecondTrial(env, s, hasRequest, input, out).0)
  {
    hide EnsureSession, PlaybackHistory, CallAndCheckVersion, PushHistory, JournalExact;
    EnsureSessionOutcome(env, s, hasRequest);
    var (s1, ready) := EnsureSession(env, s, hasRequest);
    SameJournal(s, s1);
    if ready {
      var done, sent := PlaybackOutcome(env, s1);
      var s2 := PlaybackHistory(env, s1);
      var second := input.(id := s2.id);
      CheckedCallOutcome(env, s2, second, out);
      var (s3, ok, o) := CallAndCheckVersion(env, s2, second, out);
      SameJournal(s2, s3);
      PushKeepsJournal(s3, second, o);
      ResetMakesExact(s3.(history := s3.history + [second]));
    }
  }

  lemma SameJournal(s: State, t: State)
    requires JournalExact(s) && t.history == s.history && t.trace.consumed == s.trace.consumed
    ensures JournalExact(t)
  {}

  lemma ResetMakesExact(s: State)
    ensures JournalExact(ResetHistory(s))
  {}

  lemma SentInTurn(t: seq<Input>, u: seq<Input>, v: seq<Input>, first: Input, second: Input)
    requires SentAtMost(t, u, first) && SentAtMost(u, v, second)
    ensures SentAtMostBoth(t, v, first, second) && |t| <= |u|
  {
    assert t + [first] + [second] == t + [first, second];
  }

  // One command sends the caller's input at most twice, each time under the session id then current,
  // starts a server at most five times and reboots one at most once for each of its two version
  // checks. It succeeds only with the reply to the last of those sends, and reports a fatal error
  // only on its way into SERVER_FATAL.
  lemma CommandOutcome(env: Environment, s: State, hasRequest: bool, input: Input, out: Output)
    ensures var (t, ok, o) := EnsureCallCommand(env, s, hasRequest, input, out);
      && SentAtMostBoth(s.trace.sent, t.trace.sent,
                        input.(id := EnsureSession(env, s, hasRequest).0.id), input.(id := t.id))
      && s.trace.starts <= t.trace.starts <= s.trace.starts + 5
      && s.trace.reboots <= t.trace.reboots <= s.trace.reboots + 2
      && s.trace.reports <= t.trace.reports <= s.trace.reports + 2
      && (t.trace.reports != s.trace.reports ==> !ok && t.status == Fatal)
      && (s.status == Fatal ==> t == s && !ok)
      && (ok ==> Answered(env, t, input, o) && |t.trace.sent| > |s.trace.sent|)
  {
    hide EnsureSession, SecondTrial, CallAndCheckVersion, PushHistory, Answered;
    EnsureSessionOutcome(env, s, hasRequest);
    var (s1, ready) := EnsureSession(env, s, hasRequest);
    if ready {
      var first := input.(id := s1.id);
      CheckedCallOutcome(env, s1, first, out.(id := 0));
      var (s2, ok, o) := CallAndCheckVersion(env, s1, first, out.(id := 0));
      var s3 := if ok && o.id != first.id then s2.(status := InvalidSession) else s2;
      if s3.status == Shutdown || s3.status == InvalidSession {
        SecondTrialOutcome(env, s3, hasRequest, input, o);
        var t := SecondTrial(env, s3, hasRequest, input, o).0;
        SentInTurn(s.trace.sent, s3.trace.sent, t.trace.sent, first, input.(id := t.id));
      } else if !s3.status.Failed() {
        PushOutcome(env, s3, first, o);
        StampDoesNotMatter(env, PushHistory(s3, first, o), input, s1.id, o);
      }
    }
  }

  // And it keeps the journal exact.
  lemma CommandKeepsJournal(env: Environment, s: State, hasRequest: bool, input: Input, out: Output)
    requires JournalExact(s)
    ensures JournalExact(EnsureCallCommand(env, s, hasRequest, input, out).0)
  {
    hide EnsureSession, SecondTrial, CallAndCheckVersion, PushHistory, JournalExact;
    EnsureSessionOutcome(env, s, hasRequest);
    var (s1, ready) := EnsureSession(env, s, hasRequest);
    SameJournal(s, s1);
    if ready {
      var first := input.(id := s1.id);
      CheckedCallOutcome(env, s1, first, out.(id := 0));
      var (s2, ok, o) := CallAndCheckVersion(env, s1, first, out.(id := 0));
      var s3 := if ok && o.id != first.id then s2.(status := InvalidSession) else s2;
      SameJournal(s1, s3);
      SecondTrialKeepsJournal(env, s3, hasRequest, input, o);
      PushKeepsJournal(s3, first, o);
    }
  }

  // ---- Whole runs ----

  // The public methods. CallCommand stands for all those that send one plain request.
  datatype Method =
    | DoEnsureConnection
    | DoEnsureSession
    | DoSend(input: Input, out: Output)
    | DoCallCommand(kind: Command)
    | DoShutdown
    | DoPingServer
    | DoCheckVersionOrRestartServer
    | DoReset

  // The two methods that may leave SERVER_FATAL again.
  predicate Revives(m: Method) {
    m.DoCheckVersionOrRestartServer? || m.DoReset?
  }

  function Do(env: Environment, hasRequest: bool, s: State, m: Method): State {
    match m
    case DoEnsureConnection => EnsureConnection(env, s).0
    case DoEnsureSession => EnsureSession(env, s, hasRequest).0
    case DoSend(input, out) => EnsureCallCommand(env, s, hasRequest, input, out).0
    case DoCallCommand(kind) => CallCommand(env, s, kind).0
    case DoShutdown => ShutdownServerNow(env, s).0
    case DoPingServer => s.(clock := s.clock + 1)
    case DoCheckVersionOrRestartServer => CheckVersionOrRestart(env, s).0
    case DoReset => Reset(s)
  }

  function Run(env: Environment, hasRequest: bool, s: State, ms: seq<Method>): State {
    if ms == [] then s else Do(env, hasRequest, Run(env, hasRequest, s, ms[..|ms| - 1]), ms[|ms| - 1])
  }

  lemma StepKeepsJournal(env: Environment, hasRequest: bool, s: State, m: Method)
    requires JournalExact(s)
    ensures JournalExact(Do(env, hasRequest, s, m))
  {
    hide Call, EnsureConnection, EnsureSession, CheckVersion, EnsureCallCommand;
    match m
    case DoEnsureConnection => EnsureConnectionOutcome(env, s);
    case DoEnsureSession => EnsureSessionOutcome(env, s, hasRequest);
    case DoSend(input, out) => CommandKeepsJournal(env, s, hasRequest, input, out);
    case DoCallCommand(kind) => CallOutcome(env, s, Input(kind, s.id, 0), Plain, BLANK);
    case DoShutdown => CallOutcome(env, s, Input(ShutdownServer, s.id, 0), Plain, BLANK);
    case DoPingServer =>
    case DoCheckVersionOrRestartServer =>
      CheckVersionOutcome(env, s, Input(NoOperation, 0, 0), BLANK);
      EnsureConnectionOutcome(env, CheckVersion(env, s, Input(NoOperation, 0, 0), BLANK, 0).0);
    case DoReset =>
  }

  // A method reports a fatal error only if it ends in SERVER_FATAL, at most twice, and in
  // SERVER_FATAL it neither reports nor leaves it.
  lemma StepReports(env: Environment, hasRequest: bool, s: State, m: Method)
    requires !Revives(m)
    ensures var t := Do(env, hasRequest, s, m);
      && s.trace.reports <= t.trace.reports <= s.trace.reports + 2
      && (t.trace.reports != s.trace.reports ==> t.status == Fatal && s.status != Fatal)
      && (s.status == Fatal ==> t.status == Fatal)
  {
    hide Call, EnsureConnection, EnsureSession, CheckVersion, EnsureCallCommand;
    match m
    case DoEnsureConnection => EnsureConnectionOutcome(env, s);
    case DoEnsureSession => EnsureSessionOutcome(env, s, hasRequest);
    case DoSend(input, out) => CommandOutcome(env, s, hasRequest, input, out);
    case DoCallCommand(kind) => CallOutcome(env, s, Input(kind, s.id, 0), Plain, BLANK);
    case DoShutdown => CallOutcome(env, s, Input(ShutdownServer, s.id, 0), Plain, BLANK);
    case DoPingServer =>
  }

  // Over every run of every public method, the journal is exact at each method's end and within
  // its limit.
  lemma {:induction false} RunKeepsJournal(env: Environment, hasRequest: bool, ms: seq<Method>)
    ensures var t := Run(env, hasRequest, FRESH, ms);
      JournalExact(t) && |t.history| <= MAX_PLAYBACK_SIZE
  {
    hide Do;
    if ms != [] {
      RunKeepsJournal(env, hasRequest, ms[..|ms| - 1]);
      StepKeepsJournal(env, hasRequest, Run(env, hasRequest, FRESH, ms[..|ms| - 1]), ms[|ms| - 1]);
    }
    var t := Run(env, hasRequest, FRESH, ms);
    assert |Unstamped(t.history)| == |Unstamped(Oldest(t.trace.consumed))|;
  }

  // Over every run of the other methods, fatal errors are reported at most twice in all, and once
  // one is, the client is in SERVER_FATAL.
  lemma {:induction false} RunReports(env: Environment, hasRequest: bool, ms: seq<Method>)
    requires forall m | m in ms :: !Revives(m)
    ensures var t := Run(env, hasRequest, FRESH, ms);
      t.trace.reports <= 2 && (t.trace.reports > 0 ==> t.status == Fatal)
  {
    hide Do;
    if ms != [] {
      RunReports(env, hasRequest, ms[..|ms| - 1]);
      StepReports(env, hasRequest, Run(env, hasRequest, FRESH, ms[..|ms| - 1]), ms[|ms| - 1]);
    }
  }

  // Once a method has returned in SERVER_FATAL, every further run of those methods stays there.
  lemma {:induction false} FatalIsFinal(env: Environment, hasRequest: bool, s: State, ms: seq<Method>)
    requires s.status == Fatal && forall m | m in ms :: !Revives(m)
    ensures var t := Run(env, hasRequest, s, ms);
      && t.status == Fatal && t.trace.reports == s.trace.reports
      && (JournalExact(s) ==> JournalExact(t))
  {
    hide Do;
    if ms != [] {
      FatalIsFinal(env, hasRequest, s, ms[..|ms| - 1]);
      StepReports(env, hasRequest, Run(env, hasRequest, s, ms[..|ms| - 1]), ms[|ms| - 1]);
      if JournalExact(s) {
        StepKeepsJournal(env, hasRequest, Run(env, hasRequest, s, ms[..|ms| - 1]), ms[|ms| - 1]);
      }
    }
  }

  // ---- The two exceptions, and how far the bounds go ----

  // An outside world in which everything works.
  const FINE :=
    Answer(true, true, 3, false, 1, true, false, true, Output(1, true, 0, false, false, true), true, true, true)

  // CheckVersionOrRestartServer can leave SERVER_FATAL exactly when the last protocol version the
  // client saw is older than its own, as it is before any server has answered.
  lemma CheckRevivesOldProtocol(s: State)
    requires s.status == Fatal
    ensures s.protocol < IPC_PROTOCOL_VERSION
       <==> exists env: Environment :: CheckVersionOrRestart(env, s).0.status != Fatal
  {
    if s.protocol < IPC_PROTOCOL_VERSION {
      var env: Environment := _ => FINE;
      assert CheckVersionOrRestart(env, s).0.status == InvalidSession;
    }
  }

  lemma ResetRevives(s: State)
    ensures Reset(s).status == Unknown
  {}

  // A fresh client whose server is of an old version each time it is asked for a session, and
  // goes away each time it has been rebooted.
  function FlakyServer(n: nat): Answer {
    FINE.(protocol := if n == 1 || n == 8 then 2 else 3, connected := n != 6 && n != 12)
  }

  // The bound of five starts in one command is reached.
  lemma FiveStartsHappen(input: Input)
    ensures EnsureCallCommand(FlakyServer, FRESH, false, input, BLANK).0.trace.starts == 5
  {
    hide EnsureSession;
    var env: Environment := FlakyServer;
    var s1 := EnsureSession(env, FRESH, false).0;
    FirstTwoStarts();
    var first := input.(id := s1.id);
    var s2 := CallAndCheckVersion(env, s1, first, BLANK.(id := 0)).0;
    assert s2.status == Shutdown && s2.clock == 7 && s2.trace.starts == 2;
    LastThreeStarts(s2);
  }

  lemma FirstTwoStarts()
    ensures var (s, ok) := EnsureSession(FlakyServer, FRESH, false);
      ok && s.status == Ok && s.clock == 6 && s.trace.starts == 2
  {}

  lemma LastThreeStarts(s: State)
    requires s.status == Shutdown && s.clock == 7
    ensures var (t, ok) := EnsureSession(FlakyServer, s, false);
      !ok && t.status == InvalidSession && t.trace.starts == s.trace.starts + 3
  {}
}
