/** The controller's side of a worker session. */
module Session {
  import opened Machine
  import opened Wire

  const PROTOCOL_VERSION: u32 := 1

  datatype Platform = Linux | Windows

  datatype ResourcePolicy = ResourcePolicy(
    memoryLimit: Option<u64>, cpuSeconds: Option<u64>,
    maxOpenFiles: Option<u64>, disableCoreDumps: bool, disableFileGrowth: bool)

  datatype Config = Config(
    executable: string, executableIsAbsolute: bool, arguments: seq<string>,
    budget: u64, timeout: u64, hasService: bool, maxRequests: u64,
    policy: Option<ResourcePolicy>, artifactSize: Option<nat>)

  predicate HasNul(s: string) { '\0' in s }

  /** `config_is_valid`. */
  predicate ConfigIsValid(platform: Platform, c: Config) {
    && c.executable != "" && !HasNul(c.executable) && c.executableIsAbsolute
    && c.budget != 0 && 0 < c.timeout < TWO63
    && c.hasService == (c.maxRequests != 0)
    && (c.artifactSize.Some? ==> platform == Linux && c.artifactSize.value != 0)
    && (c.policy.Some? ==> PolicyIsValid(platform, c.policy.value))
    && forall i :: 0 <= i < |c.arguments| ==> !HasNul(c.arguments[i])
  }

  predicate PolicyIsValid(platform: Platform, p: ResourcePolicy) {
    && p.memoryLimit != Some(0) && p.cpuSeconds != Some(0)
    && (p.maxOpenFiles.Some? ==> p.maxOpenFiles.value >= 3)
    && (platform != Linux ==> p.maxOpenFiles.None? && !p.disableCoreDumps && !p.disableFileGrowth)
  }

  method ContainsNul(s: string) returns (found: bool)
    ensures found <==> HasNul(s)
  {
    var i := 0;
    while i < |s|
      invariant 0 <= i <= |s| && '\0' !in s[..i]
    {
      if s[i] == '\0' {
        return true;
      }
      i := i + 1;
    }
    assert s[..i] == s;
    return false;
  }

  /** `config_is_valid`, step by step. */
  method CheckConfig(platform: Platform, c: Config) returns (valid: bool)
    ensures valid <==> ConfigIsValid(platform, c)
  {
    hide HasNul;
    var nul := ContainsNul(c.executable);
    if |c.executable| == 0 || nul || c.budget == 0 || c.timeout == 0 || c.timeout > TWO63 - 1 {
      return false;
    }
    if !c.executableIsAbsolute {
      return false;
    }
    var accepts := c.maxRequests != 0;
    if c.hasService != accepts {
      return false;
    }
    if platform.Linux? {
      if c.artifactSize.Some? && c.artifactSize.value == 0 {
        return false;
      }
    } else if c.artifactSize.Some? {
      return false;
    }
    if c.policy.Some? {
      var p := c.policy.value;
      if || (p.memoryLimit.Some? && p.memoryLimit.value == 0) || (p.cpuSeconds.Some? && p.cpuSeconds.value == 0)
         || (p.maxOpenFiles.Some? && p.maxOpenFiles.value < 3)
      {
        return false;
      }
      if !platform.Linux? && (p.maxOpenFiles.Some? || p.disableCoreDumps || p.disableFileGrowth) {
        return false;
      }
    }
    var i := 0;
    while i < |c.arguments|
      invariant 0 <= i <= |c.arguments| && forall k :: 0 <= k < i ==> !HasNul(c.arguments[k])
    {
      nul := ContainsNul(c.arguments[i]);
      if nul {
        return false;
      }
      i := i + 1;
    }
    return true;
  }

  datatype ErrorCode =
    | InvalidConfig | SpawnFailed | IoFailure | Timeout | UnexpectedEof | WireFailure | UnexpectedMessage
    | ProtocolFailure | WorkerIdentityMismatch | ServiceUnavailable | ServiceRejected | RequestLimitExceeded
    | ChildExitFailure

  // ----- what the controller accepts -----

  /** A system-call request that may reach the service. */
  predicate LegitimateCall(worker: u64, m: Message) {
    m.SyscallRequest? && m.worker == worker && m.request != 0 && m.thread != 0 && m.rip != 0
  }

  /** A fault or a diagnostic that may end the run. */
  predicate LegitimateEvent(worker: u64, m: Message) {
    (m.Fault? || m.Diagnostic?) && m.worker == worker && m.thread != 0
  }

  /** The stop agrees with what was reported before it. */
  predicate StopAgrees(worker: u64, event: Option<Message>, m: Message) {
    && m.Stop? && m.worker == worker
    && match event
       case None => m.reason != STOP_GUEST_FAULT && m.reason != STOP_DIAGNOSTIC_BOUNDARY
       case Some(e) =>
         && (e.Fault? ==> m.reason == STOP_GUEST_FAULT && m.thread == e.thread && m.rip == e.rip)
         && (e.Diagnostic? ==> m.reason == STOP_DIAGNOSTIC_BOUNDARY && m.thread == e.thread && m.rip == e.rip)
  }

  /** The messages a worker may send after READY: bounded legitimate calls, at most one terminal
      event, one agreeing stop. */
  ghost predicate Conversation(c: Config, worker: u64, calls: seq<Message>, event: Option<Message>, stop: Message) {
    && |calls| <= c.maxRequests
    && (forall i :: 0 <= i < |calls| ==> LegitimateCall(worker, calls[i]))
    && (event.Some? ==> LegitimateEvent(worker, event.value))
    && StopAgrees(worker, event, stop)
  }

  function Events(event: Option<Message>): (s: seq<Message>) {
    if event.Some? then [event.value] else []
  }

  function Spoken(calls: seq<Message>, event: Option<Message>, stop: Message): (s: seq<Message>) {
    calls + Events(event) + [stop]
  }

  /** One turn of the loop: what the controller does with a worker message. */
  datatype Turn = Finish | Record | Serve

  function Judge(c: Config, worker: u64, calls: nat, event: Option<Message>, m: Message): (r: Result<Turn, ErrorCode>)
    requires event.Some? ==> event.value.Fault? || event.value.Diagnostic?
  {
    match m
    case Stop(id, thread, reason, rip) =>
      if id != worker then Err(WorkerIdentityMismatch)
      else if event.Some? && event.value.Fault? then
        if reason != STOP_GUEST_FAULT || thread != event.value.thread || rip != event.value.rip
        then Err(ProtocolFailure) else Ok(Finish)
      else if event.Some? then
        if reason != STOP_DIAGNOSTIC_BOUNDARY || thread != event.value.thread || rip != event.value.rip
        then Err(ProtocolFailure) else Ok(Finish)
      else if reason == STOP_GUEST_FAULT || reason == STOP_DIAGNOSTIC_BOUNDARY then Err(ProtocolFailure)
      else Ok(Finish)
    case Fault(id, thread, _, _, _) => JudgeEvent(worker, event, id, thread)
    case Diagnostic(id, thread, _, _, _, _) => JudgeEvent(worker, event, id, thread)
    case _ =>
      if event.Some? then Err(ProtocolFailure)
      else if !m.SyscallRequest? then Err(UnexpectedMessage)
      else if m.worker != worker then Err(WorkerIdentityMismatch)
      else if m.request == 0 || m.thread == 0 || m.rip == 0 then Err(ProtocolFailure)
      else if !c.hasService then Err(ServiceUnavailable)
      else if calls >= c.maxRequests then Err(RequestLimitExceeded)
      else Ok(Serve)
  }

  function JudgeEvent(worker: u64, event: Option<Message>, id: u64, thread: u64): (r: Result<Turn, ErrorCode>) {
    if event.Some? || id != worker then Err(if event.Some? then ProtocolFailure else WorkerIdentityMismatch)
    else if thread == 0 then Err(ProtocolFailure)
    else Ok(Record)
  }

  /** The turn taken is the one the conversation needs. */
  lemma JudgeMeans(c: Config, worker: u64, calls: nat, event: Option<Message>, m: Message)
    requires event.Some? ==> event.value.Fault? || event.value.Diagnostic?
    requires c.hasService == (c.maxRequests != 0)
    ensures var r := Judge(c, worker, calls, event, m);
            && (r == Ok(Finish) <==> StopAgrees(worker, event, m))
            && (r == Ok(Record) <==> event.None? && LegitimateEvent(worker, m))
            && (r == Ok(Serve) <==> event.None? && LegitimateCall(worker, m) && calls < c.maxRequests)
            && (r == Err(ServiceUnavailable) <==> event.None? && LegitimateCall(worker, m) && !c.hasService)
            && (r == Err(RequestLimitExceeded) <==>
                  event.None? && LegitimateCall(worker, m) && c.hasService && calls >= c.maxRequests)
            && (r == Err(WorkerIdentityMismatch) <==>
                  && (m.Stop? || (event.None? && (m.Fault? || m.Diagnostic? || m.SyscallRequest?)))
                  && m.worker != worker)
            && (r == Err(UnexpectedMessage) <==>
                  event.None? && !(m.Stop? || m.Fault? || m.Diagnostic? || m.SyscallRequest?))
            && (r.Err? ==>
                  r.error in {ServiceUnavailable, RequestLimitExceeded, WorkerIdentityMismatch, UnexpectedMessage,
                              ProtocolFailure})
  {
  }

  // ----- the world around the controller -----

  datatype Incoming = Arrives(message: Message) | Fails(error: ErrorCode)

  /** Everything the controller does not decide: the outcome of the i-th receive, of the i-th send,
      of the i-th service call, and how the worker process ends. */
  datatype Environment = Environment(
    receive: nat -> Incoming, send: nat -> Option<ErrorCode>,
    service: nat -> Option<Message>, exit: Result<int, ErrorCode>, spawn: Option<ErrorCode>)

  datatype Outcome = Outcome(ready: Message, stop: Message, exitCode: int, calls: nat, event: Option<Message>)

  /** What the controller did: the messages it sent, the requests it passed on, the receives it made. */
  datatype Trace = Trace(sent: seq<Message>, asked: seq<Message>, received: nat)

  function TerminationFor(event: Option<Message>): (m: Message)
    ensures Valid(m)
    ensures m == Terminate(if event.None? then 0 else if event.value.Fault? then 2 else 3)
  {
    if event.Some? && event.value.Fault? then Terminate(TERMINATE_FATAL_FAULT)
    else if event.Some? then Terminate(TERMINATE_UNSUPPORTED)
    else Terminate(TERMINATE_USER_REQUEST)
  }

  /** The replies handed back for the first `n` requests. */
  function Replies(env: Environment, n: nat): (s: seq<Message>) {
    if n == 0 then [] else Replies(env, n - 1) + (if env.service(n - 1).Some? then [env.service(n - 1).value] else [])
  }

  /** The service returns system-call results. */
  ghost predicate ServiceIsTyped(env: Environment) {
    forall i :: env.service(i).Some? ==> env.service(i).value.SyscallResult?
  }

  /** The conversation that a successful session is. */
  ghost predicate Completed(
    c: Config, env: Environment, ready: Message, calls: seq<Message>, event: Option<Message>, stop: Message)
  {
    && env.spawn.None?
    && env.receive(0) == Arrives(ready) && ready.Ready? && ready.version == 1
    && Conversation(c, ready.worker, calls, event, stop)
    && Heard(env, Spoken(calls, event, stop))
    && (forall i :: 0 <= i < |calls| ==> env.service(i).Some?)
    && Delivered(env, 0, |calls| + 3)
    && env.exit == Ok(0)
  }

  /** These sends succeed. */
  ghost predicate Delivered(env: Environment, from: nat, to: nat) {
    forall i :: from <= i < to ==> env.send(i).None?
  }

  /** The messages received after READY start with `s`. */
  ghost predicate Heard(env: Environment, s: seq<Message>) {
    forall i :: 0 <= i < |s| ==> env.receive(i + 1) == Arrives(s[i])
  }

  /** What the controller sends over a whole successful session. */
  function Dialogue(c: Config, env: Environment, calls: nat, event: Option<Message>): (s: seq<Message>) {
    [Hello(1), RunRequest(c.budget)] + Replies(env, calls) + [TerminationFor(event)]
  }

  /** Any completed conversation that begins with what was heard so far continues with an acceptable
      message, and the environment lets the controller act on it. */
  lemma MustContinue(c: Config, env: Environment, worker: u64, calls: seq<Message>, event: Option<Message>,
                     ready: Message, calls': seq<Message>, event': Option<Message>, stop': Message)
    requires Completed(c, env, ready, calls', event', stop') && ready.worker == worker
    requires Heard(env, calls + Events(event))
    requires forall i :: 0 <= i < |calls| ==> LegitimateCall(worker, calls[i])
    requires event.Some? ==> LegitimateEvent(worker, event.value)
    ensures var next := env.receive(|calls| + |Events(event)| + 1);
            && next.Arrives?
            && (|| (next.message.SyscallRequest? && event.None? && LegitimateCall(worker, next.message)
                    && |calls| < c.maxRequests && env.service(|calls|).Some?)
                || (event.None? && LegitimateEvent(worker, next.message))
                || (StopAgrees(worker, event, next.message) && env.exit == Ok(0)))
    ensures env.send(|calls| + 2).None?
  {
    var said, saying := calls + Events(event), Spoken(calls', event', stop');
    forall i | 0 <= i < |said| && i < |saying|
      ensures said[i] == saying[i]
    {
      assert env.receive(i + 1) == Arrives(said[i]);
    }
    assert saying[|saying| - 1] == stop';
    assert |said| < |saying|;
    var n := |said|;
    assert env.receive(n + 1) == Arrives(saying[n]);
    assert !saying[|calls'|].SyscallRequest?;
    assert forall i :: 0 <= i < |calls| ==> said[i] == calls[i] == saying[i];
    assert |calls| <= |calls'|;
    assert event.Some? ==> said[|calls|] == event.value == saying[|calls|] && |calls'| == |calls|;
    if event.None? && n < |calls'| {
      assert saying[n] == calls'[n];
    }
  }

  // ----- the session -----

  /** No completed conversation is possible in this environment. */
  ghost predicate Hopeless(c: Config, env: Environment) {
    forall ready, calls, event, stop :: !Completed(c, env, ready, calls, event, stop)
  }

  /** What is known inside the loop about the messages received so far. */
  ghost predicate Progress(c: Config, env: Environment, worker: u64, calls: seq<Message>, event: Option<Message>) {
    && |calls| <= c.maxRequests
    && (forall i :: 0 <= i < |calls| ==> LegitimateCall(worker, calls[i]))
    && (event.Some? ==> LegitimateEvent(worker, event.value))
    && Heard(env, calls + Events(event))
  }

  /** Everything went well up to here: progress, with every request served and every reply sent. */
  ghost predicate Underway(c: Config, env: Environment, worker: u64, calls: seq<Message>, event: Option<Message>) {
    && Progress(c, env, worker, calls, event)
    && (forall i :: 0 <= i < |calls| ==> env.service(i).Some?) && Delivered(env, 2, |calls| + 2)
  }

  /** The next message, or what the controller does about it, ends the loop with an error; `asked` are
      the requests that the service has seen by then. */
  ghost predicate LoopFault(
    c: Config, env: Environment, worker: u64, calls: seq<Message>, event: Option<Message>,
    e: ErrorCode, asked: seq<Message>)
    requires event.Some? ==> event.value.Fault? || event.value.Diagnostic?
  {
    match env.receive(|calls| + |Events(event)| + 1)
    case Fails(error) => e == error && asked == calls
    case Arrives(m) =>
      match Judge(c, worker, |calls|, event, m)
      case Err(error) => e == error && asked == calls
      case Ok(turn) =>
        && turn.Serve? && asked == calls + [m]
        && if env.service(|calls|).None? then e == ServiceRejected else env.send(|calls| + 2) == Some(e)
  }

  /** An accepted stop, after which the termination cannot be sent or the worker does not exit cleanly. */
  ghost predicate EndFault(
    c: Config, env: Environment, worker: u64, calls: seq<Message>, event: Option<Message>, e: ErrorCode)
    requires event.Some? ==> event.value.Fault? || event.value.Diagnostic?
  {
    var next := env.receive(|calls| + |Events(event)| + 1);
    && next.Arrives? && Judge(c, worker, |calls|, event, next.message) == Ok(Finish)
    && if env.send(|calls| + 2).Some? then e == env.send(|calls| + 2).value
       else if env.exit.Err? then e == env.exit.error
       else env.exit.value != 0 && e == ChildExitFailure
  }

  /** The last message sent tells the worker why it is terminated: 2 after a guest fault, 3 at a
      diagnostic boundary, 0 for every other stop. */
  predicate EndsWithTermination(sent: seq<Message>, reason: u32) {
    |sent| > 0 && sent[|sent| - 1] == Terminate(if reason == 3 then 2 else if reason == 7 then 3 else 0)
  }

  /** The reason of an agreeing stop decides the termination. */
  lemma StopDecidesTermination(worker: u64, event: Option<Message>, stop: Message)
    requires StopAgrees(worker, event, stop) && (event.Some? ==> LegitimateEvent(worker, event.value))
    ensures EndsWithTermination([TerminationFor(event)], stop.reason)
  {
  }

  /** The error and the whole trace of a session that fails once the worker is ready. */
  ghost predicate FailedUnderway(
    c: Config, env: Environment, worker: u64, calls: seq<Message>, event: Option<Message>, e: ErrorCode, t: Trace)
  {
    && Underway(c, env, worker, calls, event)
    && t.received == |calls| + |Events(event)| + 2
    && var said := [Hello(PROTOCOL_VERSION), RunRequest(c.budget)] + Replies(env, |calls|);
       || (LoopFault(c, env, worker, calls, event, e, t.asked) && t.sent == said)
       || (EndFault(c, env, worker, calls, event, e) && t.asked == calls
           && t.sent == said + (if env.send(|calls| + 2).Some? then [] else [TerminationFor(event)])
           && (env.send(|calls| + 2).None? ==>
                 EndsWithTermination(t.sent, env.receive(|calls| + |Events(event)| + 1).message.reason)))
  }

  /** The error of a failed session and everything the controller did, step by step. */
  ghost predicate Reported(platform: Platform, c: Config, env: Environment, e: ErrorCode, t: Trace) {
    var hello := Hello(PROTOCOL_VERSION);
    if !ConfigIsValid(platform, c) then e == InvalidConfig && t == Trace([], [], 0)
    else if env.spawn.Some? then e == env.spawn.value && t == Trace([], [], 0)
    else if env.send(0).Some? then e == env.send(0).value && t == Trace([], [], 0)
    else if env.receive(0).Fails? then e == env.receive(0).error && t == Trace([hello], [], 1)
    else
      var ready := env.receive(0).message;
      if !ready.Ready? then e == UnexpectedMessage && t == Trace([hello], [], 1)
      else if ready.version != PROTOCOL_VERSION then e == ProtocolFailure && t == Trace([hello], [], 1)
      else if env.send(1).Some? then e == env.send(1).value && t == Trace([hello], [], 1)
      else exists calls, event :: FailedUnderway(c, env, ready.worker, calls, event, e, t)
  }

  /** The loop cannot be finished if its next step fails. */
  lemma StepFails(c: Config, env: Environment, ready: Message, calls: seq<Message>, event: Option<Message>)
    requires c.hasService == (c.maxRequests != 0)
    requires env.receive(0) == Arrives(ready) && ready.Ready? && Underway(c, env, ready.worker, calls, event)
    requires var next := env.receive(|calls| + |Events(event)| + 1);
             || next.Fails?
             || Judge(c, ready.worker, |calls|, event, next.message).Err?
             || (Judge(c, ready.worker, |calls|, event, next.message) == Ok(Serve)
                 && (env.service(|calls|).None? || env.send(|calls| + 2).Some?))
             || (Judge(c, ready.worker, |calls|, event, next.message) == Ok(Finish)
                 && (env.send(|calls| + 2).Some? || env.exit != Ok(0)))
    ensures Hopeless(c, env)
  {
    hide Completed, Judge;
    var next := env.receive(|calls| + |Events(event)| + 1);
    forall ready', calls', event', stop' | Completed(c, env, ready', calls', event', stop')
      ensures false
    {
      SameReady(c, env, ready', calls', event', stop');
      MustContinue(c, env, ready.worker, calls, event, ready', calls', event', stop');
      JudgeMeans(c, ready.worker, |calls|, event, next.message);
    }
  }

  lemma SameReady(
    c: Config, env: Environment, ready: Message, calls: seq<Message>, event: Option<Message>, stop: Message)
    requires Completed(c, env, ready, calls, event, stop)
    ensures env.receive(0) == Arrives(ready) && ready.Ready?
  {
  }

  lemma NothingYet(c: Config, env: Environment, worker: u64)
    ensures Underway(c, env, worker, [], None)
  {
  }

  lemma UnderwayCalls(c: Config, env: Environment, worker: u64, calls: seq<Message>, event: Option<Message>)
    requires Underway(c, env, worker, calls, event)
    ensures Progress(c, env, worker, calls, None)
    ensures event.Some? ==> event.value.Fault? || event.value.Diagnostic?
  {
    assert forall i :: 0 <= i < |calls| ==> (calls + Events(event))[i] == calls[i];
  }

  lemma HeardMore(env: Environment, s: seq<Message>, m: Message)
    requires Heard(env, s) && env.receive(|s| + 1) == Arrives(m)
    ensures Heard(env, s + [m])
  {
  }

  lemma EventRecorded(c: Config, env: Environment, worker: u64, calls: seq<Message>, m: Message)
    requires Underway(c, env, worker, calls, None) && LegitimateEvent(worker, m)
    requires env.receive(|calls| + 1) == Arrives(m)
    ensures Underway(c, env, worker, calls, Some(m))
  {
    HeardMore(env, calls + Events(None), m);
    assert calls + Events(None) + [m] == calls + Events(Some(m));
  }

  lemma CallProgress(c: Config, env: Environment, worker: u64, calls: seq<Message>, m: Message)
    requires Underway(c, env, worker, calls, None) && LegitimateCall(worker, m) && |calls| < c.maxRequests
    requires env.receive(|calls| + 1) == Arrives(m)
    ensures Progress(c, env, worker, calls + [m], None)
    ensures env.service(|calls|).Some? && env.send(|calls| + 2).None? ==> Underway(c, env, worker, calls + [m], None)
  {
    HeardMore(env, calls + Events(None), m);
    assert calls + Events(None) + [m] == calls + [m] + Events(None);
  }

  lemma FinishNeedsStop(c: Config, worker: u64, calls: nat, event: Option<Message>, m: Message)
    requires event.Some? ==> event.value.Fault? || event.value.Diagnostic?
    ensures Judge(c, worker, calls, event, m) == Ok(Finish) ==> m.Stop?
  {
  }

  /** The message loop: until a stop is accepted. Besides the outcome it returns the requests served
      and the terminal event received before the last message. */
  method RunLoop(c: Config, env: Environment, ready: Message)
    returns (r: Result<Message, ErrorCode>, calls: seq<Message>, event: Option<Message>, asked: seq<Message>,
             sent: seq<Message>, received: nat)
    requires c.hasService == (c.maxRequests != 0) && ServiceIsTyped(env)
    requires env.receive(0) == Arrives(ready) && ready.Ready?
    ensures Underway(c, env, ready.worker, calls, event)
    ensures received == |calls| + |Events(event)| + 1 <= c.maxRequests + 2
    ensures sent == Replies(env, |calls|) && AllValid(sent)
    ensures r.Ok? ==> asked == calls && StopAgrees(ready.worker, event, r.value)
    ensures r.Ok? ==> env.receive(received) == Arrives(r.value) && r.value.Stop?
    ensures r.Err? ==> LoopFault(c, env, ready.worker, calls, event, r.error, asked) && Hopeless(c, env)
    ensures Progress(c, env, ready.worker, asked, None)
  {
    hide Judge, Hopeless, Underway, Progress, LegitimateCall, LegitimateEvent, StopAgrees;
    event := None;
    NothingYet(c, env, ready.worker);
    calls, sent, received := [], [], 0;
    while true
      invariant Underway(c, env, ready.worker, calls, event) && |calls| <= c.maxRequests
      invariant received == |calls| + |Events(event)| && received <= c.maxRequests + 1
      invariant sent == Replies(env, |calls|) && AllValid(sent)
      decreases c.maxRequests - |calls|, if event.None? then 1 else 0
    {
      UnderwayCalls(c, env, ready.worker, calls, event);
      var next := env.receive(received + 1);
      received := received + 1;
      if next.Fails? {
        StepFails(c, env, ready, calls, event);
        return Err(next.error), calls, event, calls, sent, received;
      }
      var m := next.message;
      JudgeMeans(c, ready.worker, |calls|, event, m);
      FinishNeedsStop(c, ready.worker, |calls|, event, m);
      var turn := Judge(c, ready.worker, |calls|, event, m);
      if turn.Err? {
        StepFails(c, env, ready, calls, event);
        return Err(turn.error), calls, event, calls, sent, received;
      }
      match turn.value {
        case Finish =>
          return Ok(m), calls, event, calls, sent, received;
        case Record =>
          EventRecorded(c, env, ready.worker, calls, m);
          event := Some(m);
        case Serve =>
          var reply := env.service(|calls|);
          var failure := env.send(|calls| + 2);
          CallProgress(c, env, ready.worker, calls, m);
          if reply.None? {
            StepFails(c, env, ready, calls, event);
            return Err(ServiceRejected), calls, event, calls + [m], sent, received;
          }
          if failure.Some? {
            StepFails(c, env, ready, calls, event);
            return Err(failure.value), calls, event, calls + [m], sent, received;
          }
          calls := calls + [m];
          sent := sent + [reply.value];
      }
    }
  }

  /** `run_guest_worker_process_session`: succeeds exactly when the worker completes an acceptable
      conversation, whatever the worker, the channel and the service do; a failure is reported with
      the trace that led to it. */
  method RunSession(platform: Platform, c: Config, env: Environment)
    returns (r: Result<Outcome, ErrorCode>, t: Trace)
    requires ServiceIsTyped(env)
    ensures r.Ok? ==>
              && ConfigIsValid(platform, c)
              && Completed(c, env, r.value.ready, t.asked, r.value.event, r.value.stop)
              && r.value.calls == |t.asked| && r.value.exitCode == 0
              && t.sent == Dialogue(c, env, |t.asked|, r.value.event)
              && t.received == 1 + |Spoken(t.asked, r.value.event, r.value.stop)|
    ensures r.Ok? ==> r.value.stop.Stop? && EndsWithTermination(t.sent, r.value.stop.reason)
    ensures r.Err? ==> Reported(platform, c, env, r.error, t)
    ensures r.Err? ==> !ConfigIsValid(platform, c) || Hopeless(c, env)
    ensures |t.asked| <= c.maxRequests && t.received <= c.maxRequests + 3 && AllValid(t.sent)
    ensures t.asked != [] ==>
              && env.receive(0).Arrives? && env.receive(0).message.Ready?
              && Heard(env, t.asked)
              && forall i :: 0 <= i < |t.asked| ==> LegitimateCall(env.receive(0).message.worker, t.asked[i])
  {
    hide Conversation, ServiceIsTyped, FailedUnderway, PolicyIsValid;
    t := Trace([], [], 0);
    var valid := CheckConfig(platform, c);
    if !valid {
      return Err(InvalidConfig), t;
    }
    // Validating the run request cannot fail: a valid configuration has a non-zero budget.
    assert c.budget != 0;
    if env.spawn.Some? {
      return Err(env.spawn.value), t;
    }
    var hello := Hello(PROTOCOL_VERSION);
    if env.send(0).Some? {
      return Err(env.send(0).value), t;
    }
    t := Trace([hello], [], 1);
    var first := env.receive(0);
    if first.Fails? {
      return Err(first.error), t;
    }
    var ready := first.message;
    if !ready.Ready? {
      return Err(UnexpectedMessage), t;
    }
    if ready.version != PROTOCOL_VERSION {
      return Err(ProtocolFailure), t;
    }
    if env.send(1).Some? {
      return Err(env.send(1).value), t;
    }
    r, t := RunReady(c, env, ready);
    assert t.asked + Events(None) == t.asked;
  }

  /** From the run request to the end of the session. */
  method RunReady(c: Config, env: Environment, ready: Message) returns (r: Result<Outcome, ErrorCode>, t: Trace)
    requires c.hasService == (c.maxRequests != 0) && c.budget != 0 && ServiceIsTyped(env)
    requires env.spawn.None? && env.send(0).None? && env.send(1).None?
    requires env.receive(0) == Arrives(ready) && ready.Ready? && ready.version == PROTOCOL_VERSION
    ensures r.Ok? ==>
              && r.value.ready == ready && Completed(c, env, ready, t.asked, r.value.event, r.value.stop)
              && r.value.calls == |t.asked| && r.value.exitCode == 0
              && t.sent == Dialogue(c, env, |t.asked|, r.value.event)
              && t.received == 1 + |Spoken(t.asked, r.value.event, r.value.stop)|
              && r.value.stop.Stop? && EndsWithTermination(t.sent, r.value.stop.reason)
    ensures r.Err? ==> exists calls, event :: FailedUnderway(c, env, ready.worker, calls, event, r.error, t)
    ensures r.Err? ==> Hopeless(c, env)
    ensures t.received <= c.maxRequests + 3 && AllValid(t.sent) && Progress(c, env, ready.worker, t.asked, None)
  {
    hide Completed, ServiceIsTyped, Judge, LoopFault, EndFault, Underway, Hopeless, Progress, StopAgrees;
    var hello, run := Hello(PROTOCOL_VERSION), RunRequest(c.budget);
    var looped, calls, event, asked, sent, received := RunLoop(c, env, ready);
    t := Trace([hello, run] + sent, asked, 1 + received);
    if looped.Err? {
      assert FailedUnderway(c, env, ready.worker, calls, event, looped.error, t);
      return Err(looped.error), t;
    }
    r, t := FinishSession(c, env, ready, calls, event, looped.value, t);
    if r.Err? {
      assert FailedUnderway(c, env, ready.worker, calls, event, r.error, t);
    }
  }

  /** After the accepted stop: send the termination and wait for the worker to exit. */
  method FinishSession(c: Config, env: Environment, ready: Message, calls: seq<Message>, event: Option<Message>,
                       stop: Message, before: Trace)
    returns (r: Result<Outcome, ErrorCode>, t: Trace)
    requires c.hasService == (c.maxRequests != 0)
    requires env.spawn.None? && env.send(0).None? && env.send(1).None?
    requires env.receive(0) == Arrives(ready) && ready.Ready? && ready.version == PROTOCOL_VERSION
    requires Underway(c, env, ready.worker, calls, event) && StopAgrees(ready.worker, event, stop)
    requires env.receive(|calls| + |Events(event)| + 1) == Arrives(stop)
    requires before.asked == calls
    ensures t.asked == before.asked && t.received == before.received
    ensures r.Ok? ==> && r.value == Outcome(ready, stop, 0, |calls|, event)
                      && Completed(c, env, ready, calls, event, stop)
    ensures r.Err? ==> EndFault(c, env, ready.worker, calls, event, r.error) && Hopeless(c, env)
    ensures t.sent == before.sent + (if env.send(|calls| + 2).Some? then [] else [TerminationFor(event)])
    ensures r.Ok? ==> env.send(|calls| + 2).None?
    ensures env.send(|calls| + 2).None? ==> EndsWithTermination(t.sent, stop.reason)
  {
    hide Judge, Hopeless, Conversation, Completed;
    t := before;
    JudgeMeans(c, ready.worker, |calls|, event, stop);
    StopDecidesTermination(ready.worker, event, stop);
    var failure := env.send(|calls| + 2);
    if failure.Some? {
      StepFails(c, env, ready, calls, event);
      return Err(failure.value), t;
    }
    t := t.(sent := t.sent + [TerminationFor(event)]);
    if env.exit.Err? {
      StepFails(c, env, ready, calls, event);
      return Err(env.exit.error), t;
    }
    if env.exit.value != 0 {
      StepFails(c, env, ready, calls, event);
      return Err(ChildExitFailure), t;
    }
    assert Delivered(env, 0, |calls| + 3);
    CompletesWith(c, env, ready, calls, event, stop);
    return Ok(Outcome(ready, stop, 0, |calls|, event)), t;
  }

  lemma CompletesWith(
    c: Config, env: Environment, ready: Message, calls: seq<Message>, event: Option<Message>, stop: Message)
    requires env.spawn.None? && env.exit == Ok(0)
    requires env.receive(0) == Arrives(ready) && ready.Ready? && ready.version == PROTOCOL_VERSION
    requires Progress(c, env, ready.worker, calls, event) && StopAgrees(ready.worker, event, stop)
    requires env.receive(|calls| + |Events(event)| + 1) == Arrives(stop)
    requires forall i :: 0 <= i < |calls| ==> env.service(i).Some?
    requires Delivered(env, 0, |calls| + 3)
    ensures Completed(c, env, ready, calls, event, stop)
  {
    var said, all := calls + Events(event), Spoken(calls, event, stop);
    assert forall i :: 0 <= i < |said| ==> all[i] == said[i];
  }
}
