/** The retail diagnostic: the controller's session composed with the shipped worker over two byte
    channels, under every interleaving. */
module DiagnosticRun {
  import opened Machine
  import opened Wire
  import opened Session

  const WORKER: u64 := 1
  const THREAD: u64 := 1
  const BUDGET: u64 := 1_000_000

  /** The configuration the diagnostic command starts the session with. */
  function DiagnosticConfig(executable: string, artifact: nat): (c: Config) {
    Config(executable, true, ["--linux-retail-diagnostic-worker"], BUDGET, 15_000, false, 0,
      Some(ResourcePolicy(Some(8 * 1024 * 1024 * 1024), Some(10), Some(32), true, true)), Some(artifact))
  }

  lemma DiagnosticConfigIsValid(executable: string, artifact: nat)
    ensures ConfigIsValid(Linux, DiagnosticConfig(executable, artifact))
       <==> executable != "" && !HasNul(executable) && artifact != 0
  {
    assert forall s: string :: s in ["--linux-retail-diagnostic-worker"] ==> !HasNul(s);
  }

  /** What analysing the artifact leads to: no analysis stack, or a diagnostic. */
  datatype Analysis = NoStack | Found(boundary: u32, rip: u64, detail0: u64, detail1: u64)

  /** `diagnostic_from_preflight` picks one of the first eight boundaries. */
  predicate Possible(a: Analysis) {
    a.Found? ==> 1 <= a.boundary <= 8
  }

  // ----- the two processes -----

  datatype Controller =
    | SendHello
    | AwaitReady
    | SendRun(ready: Message)
    | Listening(ready: Message, event: Option<Message>)
    | SendTerminate(ready: Message, event: Option<Message>, stop: Message)
    | AwaitExit(ready: Message, event: Option<Message>, stop: Message)
    | Succeeded(outcome: Outcome)
    | Failed(error: ErrorCode)

  datatype Worker =
    | AwaitHello | SendReady | AwaitRun | Analyse | SendDiagnostic | SendStop | AwaitTerminate
    | Exited(code: int)

  function DiagnosticOf(a: Analysis): (m: Message)
    requires a.Found?
  {
    Diagnostic(WORKER, THREAD, a.boundary, a.rip, a.detail0, a.detail1)
  }

  function StopOf(a: Analysis): (m: Message)
    requires a.Found?
  {
    Stop(WORKER, THREAD, STOP_DIAGNOSTIC_BOUNDARY, a.rip)
  }

  predicate Typed(c: Controller) {
    match c
    case SendRun(ready) => ready.Ready?
    case Listening(ready, event) => ready.Ready? && (event.Some? ==> event.value.Fault? || event.value.Diagnostic?)
    case SendTerminate(ready, event, stop) => ready.Ready?
    case AwaitExit(ready, event, stop) => ready.Ready?
    case _ => true
  }

  predicate ControllerReceives(c: Controller) { c.AwaitReady? || c.Listening? }

  predicate WorkerReceives(w: Worker) { w.AwaitHello? || w.AwaitRun? || w.AwaitTerminate? }

  /** The controller reacts to a message; the session accepts no system calls. */
  function ControllerHears(config: Config, c: Controller, m: Message): (r: Controller)
    requires Typed(c) && ControllerReceives(c) && !config.hasService
    ensures Typed(r)
  {
    match c
    case AwaitReady =>
      if !m.Ready? then Failed(UnexpectedMessage)
      else if m.version != PROTOCOL_VERSION then Failed(ProtocolFailure)
      else SendRun(m)
    case Listening(ready, event) =>
      match Judge(config, ready.worker, 0, event, m)
      case Err(e) => Failed(e)
      case Ok(turn) => if turn.Finish? then SendTerminate(ready, event, m) else Listening(ready, Some(m))
  }

  function WorkerHears(w: Worker, m: Message): (r: Worker)
    requires WorkerReceives(w)
  {
    match w
    case AwaitHello => if !m.Hello? || m.version != PROTOCOL_VERSION then Exited(74) else SendReady
    case AwaitRun => if !m.RunRequest? || m.budget == 0 then Exited(77) else Analyse
    case AwaitTerminate => if !m.Terminate? || m.cause != TERMINATE_UNSUPPORTED then Exited(81) else Exited(0)
  }

  /** The exit code of a worker whose read fails. */
  function WorkerReadFailure(w: Worker): (r: Worker)
    requires WorkerReceives(w)
  {
    match w
    case AwaitHello => Exited(73)
    case AwaitRun => Exited(76)
    case AwaitTerminate => Exited(80)
  }

  /** What the two processes do with a message they do not expect: the worker's exit codes, and the
      controller's errors during the handshake. */
  lemma UnexpectedMessages(config: Config, w: Worker, c: Controller, m: Message)
    requires !config.hasService
    ensures w.AwaitHello? ==> (WorkerHears(w, m) == SendReady <==> m == Hello(1))
    ensures w.AwaitHello? && m != Hello(1) ==> WorkerHears(w, m) == Exited(74)
    ensures w.AwaitRun? ==> (WorkerHears(w, m) == Analyse <==> m.RunRequest? && m.budget != 0)
    ensures w.AwaitRun? && !(m.RunRequest? && m.budget != 0) ==> WorkerHears(w, m) == Exited(77)
    ensures w.AwaitTerminate? ==> WorkerHears(w, m) == if m == Terminate(3) then Exited(0) else Exited(81)
    ensures w.AwaitHello? ==> WorkerReadFailure(w) == Exited(73)
    ensures w.AwaitRun? ==> WorkerReadFailure(w) == Exited(76)
    ensures w.AwaitTerminate? ==> WorkerReadFailure(w) == Exited(80)
    ensures c.AwaitReady? ==>
              ControllerHears(config, c, m) == if !m.Ready? then Failed(UnexpectedMessage)
                                               else if m.version != 1 then Failed(ProtocolFailure) else SendRun(m)
  {
  }

  // ----- the composed system -----

  datatype System = System(controller: Controller, worker: Worker, toWorker: seq<byte>, toController: seq<byte>)

  const START: System := System(SendHello, AwaitHello, [], [])

  /** `m` is the next message on a channel. */
  ghost predicate Takes(before: seq<byte>, m: Message, after: seq<byte>) {
    Valid(m) && before == Frame(m) + after
  }

  /** Enough bytes have arrived to see that no valid frame can come of them. */
  ghost predicate Garbled(s: seq<byte>) {
    |s| >= HEADER_SIZE && forall m, more :: !StartsWith(s + more, m)
  }

  ghost predicate Sends(before: seq<byte>, m: Message, after: seq<byte>) {
    Valid(m) && after == before + Frame(m)
  }

  ghost predicate ControllerStep(config: Config, s: System, t: System)
    requires !config.hasService
  {
    && Typed(s.controller) && t.worker == s.worker
    && match s.controller
       case SendHello =>
         t.controller == AwaitReady && t.toController == s.toController
         && Sends(s.toWorker, Hello(PROTOCOL_VERSION), t.toWorker)
       case SendRun(ready) =>
         t.controller == Listening(ready, None) && t.toController == s.toController
         && Sends(s.toWorker, RunRequest(config.budget), t.toWorker)
       case SendTerminate(ready, event, stop) =>
         t.controller == AwaitExit(ready, event, stop) && t.toController == s.toController
         && Sends(s.toWorker, TerminationFor(event), t.toWorker)
       case AwaitExit(ready, event, stop) =>
         s.worker.Exited? && t.toWorker == s.toWorker && t.toController == s.toController
         && t.controller == (if s.worker.code == 0 then Succeeded(Outcome(ready, stop, 0, 0, event))
                             else Failed(ChildExitFailure))
       case Succeeded(_) => false
       case Failed(_) => false
       case _ => t.toWorker == s.toWorker && ControllerReceiveStep(config, s, t)
  }

  ghost predicate ControllerReceiveStep(config: Config, s: System, t: System)
    requires Typed(s.controller) && ControllerReceives(s.controller) && !config.hasService
  {
    || (exists m ::
          Takes(s.toController, m, t.toController) && t.controller == ControllerHears(config, s.controller, m))
    || (Garbled(s.toController) && t.controller == Failed(WireFailure) && t.toController == s.toController)
    || (s.worker.Exited? && (forall m :: !StartsWith(s.toController, m)) && t.controller == Failed(UnexpectedEof)
        && t.toController == s.toController)
  }

  ghost predicate WorkerStep(a: Analysis, s: System, t: System) {
    && t.controller == s.controller
    && match s.worker
       case SendReady =>
         t.worker == AwaitRun && t.toWorker == s.toWorker
         && Sends(s.toController, Ready(PROTOCOL_VERSION, WORKER), t.toController)
       case Analyse =>
         t.worker == (if a.NoStack? then Exited(78) else SendDiagnostic)
         && t.toWorker == s.toWorker && t.toController == s.toController
       case SendDiagnostic =>
         a.Found? && t.worker == SendStop && t.toWorker == s.toWorker
         && Sends(s.toController, DiagnosticOf(a), t.toController)
       case SendStop =>
         a.Found? && t.worker == AwaitTerminate && t.toWorker == s.toWorker
         && Sends(s.toController, StopOf(a), t.toController)
       case Exited(_) => false
       case _ => t.toController == s.toController && WorkerReceiveStep(s, t)
  }

  ghost predicate WorkerReceiveStep(s: System, t: System)
    requires WorkerReceives(s.worker)
  {
    || (exists m :: Takes(s.toWorker, m, t.toWorker) && t.worker == WorkerHears(s.worker, m))
    || (Garbled(s.toWorker) && t.worker == WorkerReadFailure(s.worker) && t.toWorker == s.toWorker)
    || ((s.controller.Succeeded? || s.controller.Failed?) && (forall m :: !StartsWith(s.toWorker, m))
        && t.worker == WorkerReadFailure(s.worker) && t.toWorker == s.toWorker)
  }

  ghost predicate Step(config: Config, a: Analysis, s: System, t: System)
    requires !config.hasService
  {
    ControllerStep(config, s, t) || WorkerStep(a, s, t)
  }

  // ----- where the two processes can be -----

  /** Everything the controller ever sends, and everything the worker ever sends. */
  function ControllerScript(config: Config): (s: seq<Message>) {
    [Hello(PROTOCOL_VERSION), RunRequest(config.budget), Terminate(TERMINATE_UNSUPPORTED)]
  }

  function WorkerScript(a: Analysis): (s: seq<Message>)
    ensures |s| == if a.Found? then 3 else 1
  {
    [Ready(PROTOCOL_VERSION, WORKER)] + (if a.Found? then [DiagnosticOf(a), StopOf(a)] else [])
  }

  /** How many messages a process has sent and taken, read off its program counter. */
  function SentByController(c: Controller): (n: nat) {
    if c.SendHello? then 0 else if c.AwaitReady? || c.SendRun? then 1
    else if c.Listening? || c.SendTerminate? || c.Failed? then 2 else 3
  }
  function TakenByController(c: Controller): (n: nat) {
    match c
    case SendHello => 0
    case AwaitReady => 0
    case SendRun(_) => 1
    case Listening(_, event) => if event.None? then 1 else 2
    case Failed(_) => 1
    case _ => 3
  }
  function SentByWorker(w: Worker): (n: nat) {
    match w
    case AwaitHello => 0
    case SendReady => 0
    case SendStop => 2
    case AwaitTerminate => 3
    case Exited(code) => if code == 0 then 3 else 1
    case _ => 1
  }
  function TakenByWorker(w: Worker): (n: nat) {
    match w
    case AwaitHello => 0
    case SendReady => 1
    case AwaitRun => 1
    case Exited(code) => if code == 0 then 3 else 2
    case _ => 2
  }

  /** The result of a diagnostic run. */
  function Diagnosis(a: Analysis): (o: Outcome)
    requires a.Found?
  {
    Outcome(Ready(PROTOCOL_VERSION, WORKER), StopOf(a), 0, 0, Some(DiagnosticOf(a)))
  }

  predicate ControllerSane(a: Analysis, w: Worker, c: Controller) {
    var ready := Ready(PROTOCOL_VERSION, WORKER);
    match c
    case SendRun(r) => r == ready
    case Listening(r, event) => r == ready && (event.None? || (a.Found? && event == Some(DiagnosticOf(a))))
    case SendTerminate(r, event, stop) =>
      a.Found? && r == ready && event == Some(DiagnosticOf(a)) && stop == StopOf(a)
    case AwaitExit(r, event, stop) =>
      a.Found? && r == ready && event == Some(DiagnosticOf(a)) && stop == StopOf(a)
    case Succeeded(o) => a.Found? && o == Diagnosis(a) && w == Exited(0)
    case Failed(e) => a.NoStack? && e == UnexpectedEof && w == Exited(78)
    case _ => true
  }

  predicate WorkerSane(a: Analysis, w: Worker) {
    match w
    case SendDiagnostic => a.Found?
    case SendStop => a.Found?
    case AwaitTerminate => a.Found?
    case Exited(code) => if a.Found? then code == 0 else code == 78
    case _ => true
  }

  /** The bytes in flight are the frames sent and not yet taken. */
  ghost predicate InFlight(script: seq<Message>, taken: nat, sent: nat, channel: seq<byte>) {
    taken <= sent <= |script| && channel == Frames(script[taken..sent])
  }

  ghost predicate Invariant(config: Config, a: Analysis, s: System) {
    && ControllerSane(a, s.worker, s.controller) && WorkerSane(a, s.worker)
    && InFlight(ControllerScript(config), TakenByWorker(s.worker), SentByController(s.controller), s.toWorker)
    && InFlight(WorkerScript(a), TakenByController(s.controller), SentByWorker(s.worker), s.toController)
  }

  // ----- channels -----

  lemma Enqueue(script: seq<Message>, taken: nat, sent: nat, channel: seq<byte>, after: seq<byte>)
    requires InFlight(script, taken, sent, channel) && sent < |script| && Sends(channel, script[sent], after)
    ensures InFlight(script, taken, sent + 1, after)
  {
    hide Frame, Frames;
    FramesStep(script[taken..sent], script[sent]);
    assert script[taken..sent + 1] == script[taken..sent] + [script[sent]];
  }

  lemma Front(script: seq<Message>, taken: nat, sent: nat, channel: seq<byte>)
    requires InFlight(script, taken, sent, channel) && AllValid(script) && taken < sent
    ensures Takes(channel, script[taken], Frames(script[taken + 1..sent]))
    ensures StartsWith(channel, script[taken])
  {
    hide Frame, Frames;
    FramesFromFront(script[taken], script[taken + 1..sent]);
    assert script[taken..sent] == [script[taken]] + script[taken + 1..sent];
  }

  lemma Dequeue(script: seq<Message>, taken: nat, sent: nat, channel: seq<byte>, m: Message, after: seq<byte>)
    requires InFlight(script, taken, sent, channel) && AllValid(script) && Takes(channel, m, after)
    ensures taken < sent && m == script[taken] && InFlight(script, taken + 1, sent, after)
  {
    hide Frame, Frames;
    FrameParts(m);
    Drained(script, taken, sent, channel);
    Front(script, taken, sent, channel);
    PrefixFree(m, script[taken], after, Frames(script[taken + 1..sent]));
  }

  /** A channel of frames is never garbled, and is unreadable only when it is empty. */
  lemma Readable(script: seq<Message>, taken: nat, sent: nat, channel: seq<byte>)
    requires InFlight(script, taken, sent, channel) && AllValid(script)
    ensures !Garbled(channel)
    ensures (forall m :: !StartsWith(channel, m)) <==> taken == sent
  {
    hide Frame, Frames, StartsWith;
    if taken < sent {
      Front(script, taken, sent, channel);
      assert channel + [] == channel;
    } else {
      assert script[taken..sent] == [];
      NoFrames();
      forall m
        ensures !StartsWith(channel, m)
      {
        NothingStarts(m);
      }
    }
  }

  lemma ScriptsValid(config: Config, a: Analysis)
    requires config.budget != 0 && Possible(a)
    ensures AllValid(ControllerScript(config)) && AllValid(WorkerScript(a))
  {
  }

  // ----- every step keeps the invariant -----

  lemma StartIsFine(config: Config, a: Analysis)
    ensures Invariant(config, a, START)
  {
    NoFrames();
    assert ControllerScript(config)[0..0] == [] && WorkerScript(a)[0..0] == [];
  }

  lemma ControllerKeeps(config: Config, a: Analysis, s: System, t: System)
    requires !config.hasService && config.maxRequests == 0 && config.budget != 0 && Possible(a)
    requires Invariant(config, a, s) && ControllerStep(config, s, t)
    ensures Invariant(config, a, t) && Rank(t) < Rank(s)
  {
    hide InFlight, Takes, Garbled, StartsWith, Sends, Judge;
    var ours, theirs := ControllerScript(config), WorkerScript(a);
    ScriptsValid(config, a);
    var sent, taken := SentByController(s.controller), TakenByController(s.controller);
    if s.controller.SendHello? || s.controller.SendRun? || s.controller.SendTerminate? {
      SentBound(ours, TakenByWorker(s.worker), sent, s.toWorker);
      Enqueue(ours, TakenByWorker(s.worker), sent, s.toWorker, t.toWorker);
    } else if ControllerReceives(s.controller) {
      Readable(theirs, taken, SentByWorker(s.worker), s.toController);
      if m :| Takes(s.toController, m, t.toController) && t.controller == ControllerHears(config, s.controller, m) {
        Dequeue(theirs, taken, SentByWorker(s.worker), s.toController, m, t.toController);
        SentBound(theirs, taken + 1, SentByWorker(s.worker), t.toController);
        if s.controller.Listening? {
          JudgeMeans(config, WORKER, 0, s.controller.event, m);
        }
      }
    }
  }

  lemma SentBound(script: seq<Message>, taken: nat, sent: nat, channel: seq<byte>)
    requires InFlight(script, taken, sent, channel)
    ensures taken <= sent <= |script|
  {
  }

  lemma WorkerKeeps(config: Config, a: Analysis, s: System, t: System)
    requires config.budget != 0 && Possible(a)
    requires Invariant(config, a, s) && WorkerStep(a, s, t)
    ensures Invariant(config, a, t) && Rank(t) < Rank(s)
  {
    hide InFlight, Takes, Garbled, StartsWith, Sends;
    var ours, theirs := ControllerScript(config), WorkerScript(a);
    ScriptsValid(config, a);
    var sent, taken := SentByWorker(s.worker), TakenByWorker(s.worker);
    SentBound(ours, taken, SentByController(s.controller), s.toWorker);
    SentBound(theirs, TakenByController(s.controller), sent, s.toController);
    if s.worker.SendReady? || s.worker.SendDiagnostic? || s.worker.SendStop? {
      Enqueue(theirs, TakenByController(s.controller), sent, s.toController, t.toController);
    } else if WorkerReceives(s.worker) {
      Readable(ours, taken, SentByController(s.controller), s.toWorker);
      if m :| Takes(s.toWorker, m, t.toWorker) && t.worker == WorkerHears(s.worker, m) {
        Dequeue(ours, taken, SentByController(s.controller), s.toWorker, m, t.toWorker);
      }
    }
  }

  /** How much is left to do: every step does some of it. */
  function Rank(s: System): (n: nat) {
    ControllerRank(s.controller) + WorkerRank(s.worker)
  }
  function ControllerRank(c: Controller): (n: nat) {
    match c
    case SendHello => 7
    case AwaitReady => 6
    case SendRun(_) => 5
    case Listening(_, event) => if event.None? then 4 else 3
    case SendTerminate(_, _, _) => 2
    case AwaitExit(_, _, _) => 1
    case _ => 0
  }
  function WorkerRank(w: Worker): (n: nat) {
    match w
    case AwaitHello => 7
    case SendReady => 6
    case AwaitRun => 5
    case Analyse => 4
    case SendDiagnostic => 3
    case SendStop => 2
    case AwaitTerminate => 1
    case Exited(_) => 0
  }

  // ----- runs -----

  ghost predicate IsRun(config: Config, a: Analysis, run: seq<System>)
    requires !config.hasService
  {
    |run| > 0 && run[0] == START && forall i :: 0 < i < |run| ==> Step(config, a, run[i - 1], run[i])
  }

  /** The end of a run: the diagnostic was delivered, or there was no stack to analyse with. */
  ghost predicate Finished(a: Analysis, s: System) {
    if a.Found? then s == System(Succeeded(Diagnosis(a)), Exited(0), [], [])
    else s == System(Failed(UnexpectedEof), Exited(78), [], [])
  }

  lemma {:induction false} RunKeeps(config: Config, a: Analysis, run: seq<System>)
    requires !config.hasService && config.maxRequests == 0 && config.budget != 0 && Possible(a)
    requires IsRun(config, a, run)
    ensures forall i :: 0 <= i < |run| ==> Invariant(config, a, run[i])
    ensures |run| + Rank(run[|run| - 1]) <= 15
  {
    hide Invariant, Step, Rank;
    var n := |run| - 1;
    if n == 0 {
      StartIsFine(config, a);
      StartRank();
    } else {
      RunKeeps(config, a, run[..n]);
      assert Step(config, a, run[n - 1], run[n]);
      StepKeeps(config, a, run[n - 1], run[n]);
      forall i | 0 <= i < |run|
        ensures Invariant(config, a, run[i])
      {
        assert i < n ==> run[i] == run[..n][i];
      }
    }
  }

  lemma StartRank()
    ensures Rank(START) == 14
  {
  }

  lemma StepKeeps(config: Config, a: Analysis, s: System, t: System)
    requires !config.hasService && config.maxRequests == 0 && config.budget != 0 && Possible(a)
    requires Invariant(config, a, s) && Step(config, a, s, t)
    ensures Invariant(config, a, t) && Rank(t) < Rank(s)
  {
    hide Invariant, ControllerStep, WorkerStep, Rank;
    if ControllerStep(config, s, t) {
      ControllerKeeps(config, a, s, t);
    } else {
      WorkerKeeps(config, a, s, t);
    }
  }

  /** There is no deadlock: a reachable system that is not finished can take a step. */
  lemma NoDeadlock(config: Config, a: Analysis, s: System)
    requires !config.hasService && config.budget != 0 && Possible(a) && Invariant(config, a, s)
    ensures Finished(a, s) || exists t :: Step(config, a, s, t)
  {
    hide InFlight, Garbled, StartsWith, Judge, Frame, Frames;
    var ours, theirs := ControllerScript(config), WorkerScript(a);
    ScriptsValid(config, a);
    var c, w := s.controller, s.worker;
    SentBound(ours, TakenByWorker(w), SentByController(c), s.toWorker);
    SentBound(theirs, TakenByController(c), SentByWorker(w), s.toController);
    if c.SendHello? || c.SendRun? || c.SendTerminate? {
      ControllerCanSend(config, a, s);
    } else if w.SendReady? || w.SendDiagnostic? || w.SendStop? || w.Analyse? {
      WorkerCanAct(config, a, s);
    } else if WorkerReceives(w) && TakenByWorker(w) < SentByController(c) {
      Front(ours, TakenByWorker(w), SentByController(c), s.toWorker);
      var m, rest := ours[TakenByWorker(w)], Frames(ours[TakenByWorker(w) + 1..SentByController(c)]);
      assert Step(config, a, s, s.(worker := WorkerHears(w, m), toWorker := rest));
    } else if ControllerReceives(c) && TakenByController(c) < SentByWorker(w) {
      Front(theirs, TakenByController(c), SentByWorker(w), s.toController);
      var m, rest := theirs[TakenByController(c)], Frames(theirs[TakenByController(c) + 1..SentByWorker(w)]);
      assert Step(config, a, s, s.(controller := ControllerHears(config, c, m), toController := rest));
    } else {
      AllIsSaid(config, a, s);
    }
  }

  lemma ControllerCanSend(config: Config, a: Analysis, s: System)
    requires !config.hasService && config.budget != 0
    requires s.controller.SendHello? || s.controller.SendRun? || s.controller.SendTerminate?
    requires Typed(s.controller)
    ensures exists t :: Step(config, a, s, t)
  {
    hide Frame;
    var c := s.controller;
    if c.SendHello? {
      assert Step(config, a, s, s.(controller := AwaitReady, toWorker := s.toWorker + Frame(Hello(PROTOCOL_VERSION))));
    } else if c.SendRun? {
      assert Step(config, a, s,
          s.(controller := Listening(c.ready, None), toWorker := s.toWorker + Frame(RunRequest(config.budget))));
    } else {
      assert Step(config, a, s,
          s.(controller := AwaitExit(c.ready, c.event, c.stop),
             toWorker := s.toWorker + Frame(TerminationFor(c.event))));
    }
  }

  lemma WorkerCanAct(config: Config, a: Analysis, s: System)
    requires !config.hasService && Possible(a) && WorkerSane(a, s.worker)
    requires s.worker.SendReady? || s.worker.SendDiagnostic? || s.worker.SendStop? || s.worker.Analyse?
    ensures exists t :: Step(config, a, s, t)
  {
    hide Frame;
    match s.worker
    case SendReady =>
      assert Step(config, a, s,
          s.(worker := AwaitRun, toController := s.toController + Frame(Ready(PROTOCOL_VERSION, WORKER))));
    case Analyse =>
      assert Step(config, a, s, s.(worker := if a.NoStack? then Exited(78) else SendDiagnostic));
    case SendDiagnostic =>
      assert Step(config, a, s, s.(worker := SendStop, toController := s.toController + Frame(DiagnosticOf(a))));
    case SendStop =>
      assert Step(config, a, s, s.(worker := AwaitTerminate, toController := s.toController + Frame(StopOf(a))));
    case _ =>
  }

  /** Both processes wait, with nothing in flight for either: only the end of the run looks like this. */
  lemma AllIsSaid(config: Config, a: Analysis, s: System)
    requires !config.hasService && config.budget != 0 && Possible(a) && Invariant(config, a, s)
    requires !(s.controller.SendHello? || s.controller.SendRun? || s.controller.SendTerminate?)
    requires !(s.worker.SendReady? || s.worker.SendDiagnostic? || s.worker.SendStop? || s.worker.Analyse?)
    requires WorkerReceives(s.worker) ==> TakenByWorker(s.worker) == SentByController(s.controller)
    requires ControllerReceives(s.controller) ==> TakenByController(s.controller) == SentByWorker(s.worker)
    ensures Finished(a, s) || exists t :: Step(config, a, s, t)
  {
    hide InFlight, Garbled, StartsWith, Judge, Frame, Frames;
    var ours, theirs := ControllerScript(config), WorkerScript(a);
    ScriptsValid(config, a);
    var c, w := s.controller, s.worker;
    SentBound(ours, TakenByWorker(w), SentByController(c), s.toWorker);
    SentBound(theirs, TakenByController(c), SentByWorker(w), s.toController);
    assert w.Exited?;
    if c.AwaitExit? {
      assert Step(config, a, s, s.(controller := Succeeded(Outcome(c.ready, c.stop, 0, 0, c.event))));
    } else if ControllerReceives(c) {
      Readable(theirs, TakenByController(c), SentByWorker(w), s.toController);
      assert Step(config, a, s, s.(controller := Failed(UnexpectedEof)));
    } else {
      Drained(ours, TakenByWorker(w), SentByController(c), s.toWorker);
      Drained(theirs, TakenByController(c), SentByWorker(w), s.toController);
    }
  }

  lemma Drained(script: seq<Message>, taken: nat, sent: nat, channel: seq<byte>)
    requires InFlight(script, taken, sent, channel)
    ensures taken == sent ==> channel == []
  {
    NoFrames();
    assert taken == sent ==> script[taken..sent] == [];
  }

  /** Every run, however the two processes interleave, has at most fourteen steps, never meets an
      unexpected message, and can always go on until the diagnostic is delivered and the worker has
      exited with 0 (or, when there is no analysis stack, with 78 and an end of stream). */
  lemma EveryRunEndsWell(config: Config, a: Analysis, run: seq<System>)
    requires !config.hasService && config.maxRequests == 0 && config.budget != 0 && Possible(a)
    requires IsRun(config, a, run)
    ensures |run| <= 15
    ensures var last := run[|run| - 1]; Finished(a, last) || exists t :: Step(config, a, last, t)
    ensures forall i :: 0 <= i < |run| && run[i].controller.Failed? ==>
              a.NoStack? && run[i].controller == Failed(UnexpectedEof)
    ensures forall i :: 0 <= i < |run| && run[i].worker.Exited? ==> run[i].worker.code == if a.Found? then 0 else 78
  {
    hide InFlight, Step, Rank, Finished;
    RunKeeps(config, a, run);
    NoDeadlock(config, a, run[|run| - 1]);
  }

  // ----- the composed controller is the session operation -----

  /** What the controller puts on the channel in its next step. */
  function NextSend(config: Config, c: Controller): (s: seq<Message>) {
    match c
    case SendHello => [Hello(PROTOCOL_VERSION)]
    case SendRun(_) => [RunRequest(config.budget)]
    case SendTerminate(_, event, _) => [TerminationFor(event)]
    case _ => []
  }

  /** Everything the controller sent in a run: it moves exactly when its own state changes. */
  function RunSends(config: Config, run: seq<System>): (s: seq<Message>) {
    if |run| <= 1 then []
    else
      var n := |run| - 1;
      RunSends(config, run[..n])
      + (if run[n].controller == run[n - 1].controller then [] else NextSend(config, run[n - 1].controller))
  }

  /** The message that the controller takes off the channel in a step, if it takes one. */
  ghost function Taken(s: System, t: System): (r: seq<Message>) {
    if t.controller != s.controller && ControllerReceives(s.controller)
       && exists m :: Takes(s.toController, m, t.toController)
    then
      var m :| Takes(s.toController, m, t.toController);
      [m]
    else []
  }

  /** Everything the controller received in a run. */
  ghost function RunReceives(run: seq<System>): (s: seq<Message>) {
    if |run| <= 1 then [] else RunReceives(run[..|run| - 1]) + Taken(run[|run| - 2], run[|run| - 1])
  }

  /** One step adds to the two logs exactly what the program counters say. */
  lemma StepLogs(config: Config, a: Analysis, s: System, t: System)
    requires !config.hasService && config.maxRequests == 0 && config.budget != 0 && Possible(a)
    requires Invariant(config, a, s) && Step(config, a, s, t)
    ensures SentByController(t.controller) <= 3 && TakenByController(t.controller) <= |WorkerScript(a)|
    ensures var sends := if t.controller == s.controller then [] else NextSend(config, s.controller);
            ControllerScript(config)[..SentByController(t.controller)] ==
            ControllerScript(config)[..SentByController(s.controller)] + sends
    ensures TakenByController(s.controller) <= |WorkerScript(a)|
    ensures WorkerScript(a)[..TakenByController(t.controller)]
         == WorkerScript(a)[..TakenByController(s.controller)] + Taken(s, t)
  {
    hide InFlight, Takes, Garbled, StartsWith, Sends, Judge;
    StepKeeps(config, a, s, t);
    var script := WorkerScript(a);
    SentBound(script, TakenByController(t.controller), SentByWorker(t.worker), t.toController);
    SentBound(script, TakenByController(s.controller), SentByWorker(s.worker), s.toController);
    if t.controller != s.controller {
      assert ControllerStep(config, s, t);
      if ControllerReceives(s.controller) {
        ReceiveLogs(config, a, s, t);
      }
    }
  }

  /** A receiving step takes the next message of the worker's script, or fails at the end of it. */
  lemma ReceiveLogs(config: Config, a: Analysis, s: System, t: System)
    requires !config.hasService && config.maxRequests == 0 && config.budget != 0 && Possible(a)
    requires Invariant(config, a, s) && ControllerReceives(s.controller) && t.controller != s.controller
    requires ControllerStep(config, s, t)
    ensures var script, taken := WorkerScript(a), TakenByController(s.controller);
            && taken <= |script|
            && (t.controller.Failed? ==> Taken(s, t) == [] && taken == 1)
            && (!t.controller.Failed? ==>
                  taken < |script| && Taken(s, t) == [script[taken]] && TakenByController(t.controller) == taken + 1)
  {
    hide InFlight, Takes, Garbled, StartsWith, Sends, Judge;
    var script, taken := WorkerScript(a), TakenByController(s.controller);
    ScriptsValid(config, a);
    ControllerKeeps(config, a, s, t);
    Readable(script, taken, SentByWorker(s.worker), s.toController);
    SentBound(script, taken, SentByWorker(s.worker), s.toController);
    forall m | Takes(s.toController, m, t.toController)
      ensures taken < |script| && taken < SentByWorker(s.worker) && m == script[taken]
    {
      Dequeue(script, taken, SentByWorker(s.worker), s.toController, m, t.toController);
    }
    if !t.controller.Failed? {
      assert exists m :: Takes(s.toController, m, t.toController);
      if s.controller.Listening? {
        JudgeMeans(config, WORKER, 0, s.controller.event, script[taken]);
      }
    }
  }

  /** Over every run the two logs are prefixes of the two scripts. */
  lemma {:induction false} RunLogs(config: Config, a: Analysis, run: seq<System>)
    requires !config.hasService && config.maxRequests == 0 && config.budget != 0 && Possible(a)
    requires IsRun(config, a, run)
    ensures var last := run[|run| - 1].controller;
            && SentByController(last) <= 3 && TakenByController(last) <= |WorkerScript(a)|
            && RunSends(config, run) == ControllerScript(config)[..SentByController(last)]
            && RunReceives(run) == WorkerScript(a)[..TakenByController(last)]
  {
    hide Invariant, Step, Taken, NextSend, ControllerScript, WorkerScript;
    var n := |run| - 1;
    if n == 0 {
      StartLogs(config, a);
    } else {
      RunKeeps(config, a, run);
      RunLogs(config, a, run[..n]);
      assert Step(config, a, run[n - 1], run[n]);
      StepLogs(config, a, run[n - 1], run[n]);
      assert run[..n][n - 1] == run[n - 1];
      ScriptLength(config);
    }
  }

  lemma StartLogs(config: Config, a: Analysis)
    ensures SentByController(START.controller) == 0 == TakenByController(START.controller)
    ensures ControllerScript(config)[..0] == [] && WorkerScript(a)[..0] == []
  {
  }

  lemma ScriptLength(config: Config)
    ensures |ControllerScript(config)| == 3
  {
  }

  ghost predicate IsFinishedRun(config: Config, a: Analysis, run: seq<System>)
    requires !config.hasService
  {
    IsRun(config, a, run) && Finished(a, run[|run| - 1])
  }

  /** The environment in which the session operation meets the shipped worker: the worker's messages
      arrive in order, then its end of stream, and it exits cleanly if it got that far. */
  ghost predicate MeetsWorker(a: Analysis, env: Environment) {
    && env.spawn.None? && Delivered(env, 0, 3)
    && (forall i :: 0 <= i < |WorkerScript(a)| ==> env.receive(i) == Arrives(WorkerScript(a)[i]))
    && env.receive(|WorkerScript(a)|) == Fails(UnexpectedEof)
    && (a.Found? ==> env.exit == Ok(0))
  }

  /** The messages of the shipped worker are a conversation the session operation accepts. */
  lemma WorkerScriptCompletes(config: Config, a: Analysis, env: Environment)
    requires a.Found? && Possible(a) && MeetsWorker(a, env)
    ensures Completed(config, env, Diagnosis(a).ready, [], Diagnosis(a).event, Diagnosis(a).stop)
  {
    var script := WorkerScript(a);
    assert env.receive(0) == Arrives(script[0]);
    assert env.receive(1) == Arrives(script[1]) && env.receive(2) == Arrives(script[2]);
    assert Spoken([], Diagnosis(a).event, Diagnosis(a).stop) == [script[1], script[2]];
  }

  /** In that environment every completed conversation is the diagnostic one. */
  lemma OnlyTheDiagnosis(config: Config, a: Analysis, env: Environment, ready: Message, calls: seq<Message>,
                         event: Option<Message>, stop: Message)
    requires Possible(a) && MeetsWorker(a, env) && Completed(config, env, ready, calls, event, stop)
    ensures a.Found? && calls == []
    ensures ready == Diagnosis(a).ready && event == Diagnosis(a).event && stop == Diagnosis(a).stop
  {
    var script, spoken := WorkerScript(a), Spoken(calls, event, stop);
    assert env.receive(0) == Arrives(script[0]);
    assert env.receive(0 + 1) == Arrives(spoken[0]);
    assert a.Found?;
    assert env.receive(1) == Arrives(script[1]) && env.receive(2) == Arrives(script[2]);
    assert calls == [];
    assert spoken[0] == script[1];
    assert event == Some(script[1]);
    assert env.receive(1 + 1) == Arrives(spoken[1]);
  }

  /** Without a stack the loop fails at once, on the end of the stream. */
  lemma NothingBeforeTheEnd(config: Config, env: Environment, calls: seq<Message>, event: Option<Message>)
    requires MeetsWorker(NoStack, env) && Progress(config, env, WORKER, calls, event)
    ensures calls == [] && event == None
  {
    if calls + Events(event) != [] {
      HeardSomething(env, calls + Events(event));
    }
  }

  lemma HeardSomething(env: Environment, s: seq<Message>)
    requires s != [] && Heard(env, s)
    ensures env.receive(1).Arrives?
  {
    assert env.receive(0 + 1) == Arrives(s[0]);
  }

  /** The session operation itself, run against the shipped worker: it returns what the composed
      controller ends with, and its trace is what the composed controller sent and received. */
  method SessionMeetsWorker(executable: string, artifact: nat, a: Analysis, env: Environment)
    returns (r: Result<Outcome, ErrorCode>, t: Trace)
    requires executable != "" && !HasNul(executable) && artifact != 0
    requires Possible(a) && MeetsWorker(a, env) && ServiceIsTyped(env)
    ensures r == if a.Found? then Ok(Diagnosis(a)) else Err(UnexpectedEof)
    ensures var script := ControllerScript(DiagnosticConfig(executable, artifact));
            t == if a.Found? then Trace(script, [], 3) else Trace(script[..2], [], 2)
    ensures forall run | IsFinishedRun(DiagnosticConfig(executable, artifact), a, run) ::
              && t.sent == RunSends(DiagnosticConfig(executable, artifact), run)
              && t.received == |RunReceives(run)| + (if a.Found? then 0 else 1)
              && forall i :: 0 <= i < |RunReceives(run)| ==> env.receive(i) == Arrives(RunReceives(run)[i])
  {
    hide Completed, Judge, RunSends, RunReceives, ServiceIsTyped, HasNul;
    var config := DiagnosticConfig(executable, artifact);
    DiagnosticConfigIsValid(executable, artifact);
    r, t := RunSession(Linux, config, env);
    SessionOutcome(config, a, env, r, t);
    forall run | IsFinishedRun(config, a, run)
      ensures t.sent == RunSends(config, run) && |RunReceives(run)| == |WorkerScript(a)|
      ensures RunReceives(run) == WorkerScript(a)
    {
      RunLogs(config, a, run);
      assert WorkerScript(a)[..|WorkerScript(a)|] == WorkerScript(a);
      assert ControllerScript(config)[..3] == ControllerScript(config);
    }
  }

  lemma SessionOutcome(config: Config, a: Analysis, env: Environment, r: Result<Outcome, ErrorCode>, t: Trace)
    requires Possible(a) && MeetsWorker(a, env) && ConfigIsValid(Linux, config) && config.maxRequests == 0
    requires r.Ok? ==>
               && Completed(config, env, r.value.ready, t.asked, r.value.event, r.value.stop)
               && r.value.calls == |t.asked| && r.value.exitCode == 0
               && t.sent == Dialogue(config, env, |t.asked|, r.value.event)
               && t.received == 1 + |Spoken(t.asked, r.value.event, r.value.stop)|
    requires r.Err? ==> Reported(Linux, config, env, r.error, t) && Hopeless(config, env)
    ensures r == if a.Found? then Ok(Diagnosis(a)) else Err(UnexpectedEof)
    ensures var script := ControllerScript(config);
            t == if a.Found? then Trace(script, [], 3) else Trace(script[..2], [], 2)
  {
    hide Judge, Completed;
    if r.Ok? {
      OnlyTheDiagnosis(config, a, env, r.value.ready, t.asked, r.value.event, r.value.stop);
    } else {
      if a.Found? {
        WorkerScriptCompletes(config, a, env);
      }
      assert env.receive(0) == Arrives(WorkerScript(a)[0]);
      var calls, event :| FailedUnderway(config, env, WORKER, calls, event, r.error, t);
      NothingBeforeTheEnd(config, env, calls, event);
    }
  }
}
