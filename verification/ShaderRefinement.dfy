/** The block-by-block run refines an interpreter that knows nothing about blocks.

    The interpreter executes one emission at a time from a program counter. It counts how often
    control enters a leader, and gives up when that count would pass the budget. */
module ShaderRefinement {
  import opened Machine
  import opened ShaderIr
  import opened ShaderProgram
  import opened ShaderCfg
  import opened ShaderExecution

  // ----- the one-emission interpreter -----

  datatype StepResult =
    | Goto(pc: nat, state: ScalarValue, effects: seq<Effect>)
    | Halt(state: ScalarValue, effects: seq<Effect>)
    | Fault(failure: Failure)

  function FallThrough(p: Program, pc: nat, s: ScalarValue, effects: seq<Effect>): (r: StepResult) {
    if pc + 1 < |p.emissions| then Goto(pc + 1, s, effects) else Halt(s, effects)
  }

  function Step(p: Program, pc: nat, s: ScalarValue): (r: StepResult)
    requires pc < |p.emissions| && Resolves(p, pc)
    ensures r.Goto? ==> r.pc < |p.emissions|
  {
    match p.emissions[pc].operation
    case Nop(_) => FallThrough(p, pc, s, [])
    case EndProgram => Halt(s, [])
    case RelativeBranch(_) => Goto(Target(p, pc).value, s, [])
    case ConditionalBranch(condition, _) =>
      if EvaluateCondition(condition, s) then Goto(Target(p, pc).value, s, []) else FallThrough(p, pc, s, [])
    case ScalarMove32(_, _) => StepMove(p, pc, s)
    case ScalarMove64(_, _) => StepMove(p, pc, s)
    case _ => Fault(NotScalar)
  }

  function StepMove(p: Program, pc: nat, s: ScalarValue): (r: StepResult)
    requires pc < |p.emissions|
    ensures r.Goto? ==> r.pc == pc + 1 < |p.emissions|
  {
    match MoveResult(p.emissions[pc].operation, s)
    case Err(e) => Fault(ScalarFailure(e))
    case Ok((now, effect)) => FallThrough(p, pc, now, [effect])
  }

  /** Control leaves straight-line order only to land on a leader. */
  lemma JumpsLandOnLeaders(p: Program, pc: nat, s: ScalarValue)
    requires AllBranchesResolve(p) && pc < |p.emissions|
    ensures Resolves(p, pc)
    ensures Step(p, pc, s).Goto? ==> Step(p, pc, s).pc == pc + 1 || IsLeader(p, Step(p, pc, s).pc)
  {
    assert Resolves(p, pc);
    var r := Step(p, pc, s);
    if r.Goto? && r.pc != pc + 1 {
      assert JumpsTo(p, pc, r.pc);
    }
  }

  /** What has happened so far: scalar writes in order, emissions executed, leaders entered. */
  datatype Log = Log(effects: seq<Effect>, steps: nat, entered: nat)

  datatype Outcome =
    | Done(state: ScalarValue, log: Log)
    | Exhausted(pc: nat, state: ScalarValue, log: Log)
    | Failed(pc: nat, state: ScalarValue, log: Log, failure: Failure)

  ghost function Entering(p: Program, pc: nat, log: Log): (r: Log) {
    if IsLeader(p, pc) then log.(entered := log.entered + 1) else log
  }

  ghost function Interpret(p: Program, pc: nat, s: ScalarValue, budget: nat, log: Log): (r: Outcome)
    requires AllBranchesResolve(p) && pc < |p.emissions| && log.entered <= budget
    decreases if IsLeader(p, pc) then budget - log.entered else budget - log.entered + 1, |p.emissions| - pc
  {
    if IsLeader(p, pc) && log.entered == budget then Exhausted(pc, s, log)
    else
      JumpsLandOnLeaders(p, pc, s);
      var log' := Entering(p, pc, log);
      match Step(p, pc, s)
      case Fault(failure) => Failed(pc, s, log', failure)
      case Halt(now, effects) => Done(now, log'.(effects := log.effects + effects, steps := log.steps + 1))
      case Goto(next, now, effects) =>
        Interpret(p, next, now, budget, log'.(effects := log.effects + effects, steps := log.steps + 1))
  }

  /** A larger budget changes nothing once the smaller one was enough; so the interpreter is
      exhausted exactly when it needs to enter more leaders than the budget. */
  lemma {:induction false} BudgetOnlyTruncates(p: Program, pc: nat, s: ScalarValue, budget: nat, more: nat, log: Log)
    requires AllBranchesResolve(p) && pc < |p.emissions| && log.entered <= budget <= more
    ensures var r, r' := Interpret(p, pc, s, budget, log), Interpret(p, pc, s, more, log);
            && (!r.Exhausted? ==> r' == r && r.log.entered <= budget)
            && (r.Exhausted? ==> r.log.entered == budget && IsLeader(p, r.pc))
            && (r.Exhausted? && budget < more ==> r'.log.entered > budget)
    decreases if IsLeader(p, pc) then budget - log.entered else budget - log.entered + 1, |p.emissions| - pc
  {
    if IsLeader(p, pc) && log.entered == budget {
      if budget < more {
        EnteredGrows(p, pc, s, more, log);
      }
    } else {
      JumpsLandOnLeaders(p, pc, s);
      var step := Step(p, pc, s);
      if step.Goto? {
        var log' := Entering(p, pc, log).(effects := log.effects + step.effects, steps := log.steps + 1);
        BudgetOnlyTruncates(p, step.pc, step.state, budget, more, log');
      }
    }
  }

  lemma {:induction false} EnteredGrows(p: Program, pc: nat, s: ScalarValue, budget: nat, log: Log)
    requires AllBranchesResolve(p) && pc < |p.emissions| && log.entered <= budget
    requires IsLeader(p, pc) ==> log.entered < budget
    ensures Interpret(p, pc, s, budget, log).log.entered >= Entering(p, pc, log).entered
    decreases if IsLeader(p, pc) then budget - log.entered else budget - log.entered + 1, |p.emissions| - pc
  {
    JumpsLandOnLeaders(p, pc, s);
    var step := Step(p, pc, s);
    if step.Goto? {
      var log' := Entering(p, pc, log).(effects := log.effects + step.effects, steps := log.steps + 1);
      if !(IsLeader(p, step.pc) && log'.entered == budget) {
        EnteredGrows(p, step.pc, step.state, budget, log');
      }
    }
  }

  // ----- one block simulates a straight run of steps -----

  /** Where control goes after the last emission of a block. */
  function NextPc(p: Program, last: nat, decision: Option<Decision>): (r: Option<nat>)
    requires last < |p.emissions| && Resolves(p, last)
    requires p.emissions[last].operation.ConditionalBranch? ==> decision.Some?
  {
    var fall := if last + 1 < |p.emissions| then Some(last + 1) else None;
    match p.emissions[last].operation
    case EndProgram => None
    case RelativeBranch(_) => Target(p, last)
    case ConditionalBranch(_, _) => if decision.value.taken then Target(p, last) else fall
    case _ => fall
  }

  /** On a built graph, successor selection never fails and picks the block that starts where
      control goes. */
  lemma SelectionFollowsControl(p: Program, g: Graph, b: nat, decision: Option<Decision>)
    requires IsGraphOf(p, g) && b < |g.blocks|
    requires var last := g.blocks[b].first + g.blocks[b].count - 1;
             0 <= last < |p.emissions| && DecisionFits(p.emissions[last].operation, decision)
    ensures var last := g.blocks[b].first + g.blocks[b].count - 1;
            && Resolves(p, last)
            && var selected := SelectSuccessor(p, g, b, decision);
               && selected.Ok?
               && (NextPc(p, last, decision).None? <==> selected.value.None?)
               && (selected.value.Some? ==>
                     && selected.value.value.target < |g.blocks|
                     && g.blocks[selected.value.value.target].first == NextPc(p, last, decision).value)
  {
    hide IsLeader, FindStart, WellTiled;
    assert BlockOk(p, g.blocks, b);
    var last := g.blocks[b].first + g.blocks[b].count - 1;
    assert Resolves(p, last);
    var firsts := Firsts(g.blocks);
    BlockBounds(firsts, |p.emissions|, b);
    var succ := g.blocks[b].successors;
    assert EdgesOf(p, firsts, b, succ);
    if last + 1 < |p.emissions| {
      assert b + 1 < |firsts| && firsts[b + 1] == last + 1;
    }
    assert FirstInvalidEdge(succ, |g.blocks|, 0).None?;
    if p.emissions[last].operation.ConditionalBranch? {
      if |succ| == 2 {
        assert ScanEdges(succ, 0, None, None) == ScanEdges(succ, 1, Some(succ[0]), None)
            == ScanEdges(succ, 2, Some(succ[0]), Some(succ[1]));
      } else {
        assert ScanEdges(succ, 0, None, None) == ScanEdges(succ, 1, Some(succ[0]), None);
      }
    }
  }

  /** How the interpreter continues once a block body has been run. */
  ghost function Continue(p: Program, last: nat, body: Body, budget: nat, before: Log): (r: Outcome)
    requires AllBranchesResolve(p) && last < |p.emissions| && before.entered < budget
    requires body.stopped.None? && p.emissions[last].operation.ConditionalBranch? ==> body.decision.Some?
  {
    var log := Log(before.effects + body.effects, before.steps + body.completed, before.entered + 1);
    if body.stopped.Some? then Failed(body.stopped.value.0, body.state, log, body.stopped.value.1)
    else
      assert Resolves(p, last);
      match NextPc(p, last, body.decision)
      case None => Done(body.state, log)
      case Some(next) => Interpret(p, next, body.state, budget, log)
  }

  /** The decision recorded by the body belongs to the block's own conditional branch. */
  lemma {:induction false} BodyDecision(p: Program, i: nat, last: nat, acc: Body)
    requires i <= last < |p.emissions| && acc.stopped.None? && acc.decision.None?
    requires forall k :: i <= k < last ==> !IsControl(p.emissions[k].operation)
    ensures var body := RunBody(p, i, last + 1, acc);
            body.stopped.None? ==> DecisionFits(p.emissions[last].operation, body.decision)
    decreases last - i
  {
    hide MoveResult;
    var op := p.emissions[i].operation;
    if i < last {
      if op.Nop? {
        BodyDecision(p, i + 1, last, acc.(completed := acc.completed + 1));
      } else if IsMove(op) && MoveResult(op, acc.state).Ok? {
        var (now, effect) := MoveResult(op, acc.state).value;
        BodyDecision(p, i + 1, last,
                     acc.(state := now, effects := acc.effects + [effect], completed := acc.completed + 1));
      }
    } else {
      assert forall acc': Body :: acc'.stopped.None? ==> RunBody(p, last + 1, last + 1, acc') == acc';
    }
  }

  /** The log with which the interpreter reaches emission `i` of a block. */
  ghost function LogAt(first: nat, i: nat, acc: Body, before: Log): (log: Log) {
    Log(before.effects + acc.effects, before.steps + acc.completed,
        if i == first then before.entered else before.entered + 1)
  }

  /** Inside a block only the first emission is a leader. */
  ghost predicate Interior(p: Program, first: nat, i: nat, last: nat, budget: nat, before: Log) {
    && AllBranchesResolve(p) && first <= i < last < |p.emissions| && before.entered < budget
    && IsLeader(p, first) && (forall k :: first < k <= last ==> !IsLeader(p, k))
    && !IsControl(p.emissions[i].operation)
  }

  lemma NopStep(p: Program, first: nat, i: nat, last: nat, acc: Body, budget: nat, before: Log)
    requires Interior(p, first, i, last, budget, before) && acc.stopped.None? && p.emissions[i].operation.Nop?
    ensures var acc' := acc.(completed := acc.completed + 1);
            && RunBody(p, i, last + 1, acc) == RunBody(p, i + 1, last + 1, acc')
            && Interpret(p, i, acc.state, budget, LogAt(first, i, acc, before))
               == Interpret(p, i + 1, acc'.state, budget, LogAt(first, i + 1, acc', before))
  {
    hide IsLeader, MoveResult, FindStart, EvaluateCondition;
    assert Resolves(p, i);
    assert before.effects + acc.effects + [] == before.effects + acc.effects;
  }

  lemma MoveStep(p: Program, first: nat, i: nat, last: nat, acc: Body, budget: nat, before: Log)
    requires Interior(p, first, i, last, budget, before) && acc.stopped.None?
    requires IsMove(p.emissions[i].operation) && MoveResult(p.emissions[i].operation, acc.state).Ok?
    ensures var (now, effect) := MoveResult(p.emissions[i].operation, acc.state).value;
            var acc' := acc.(state := now, effects := acc.effects + [effect], completed := acc.completed + 1);
            && RunBody(p, i, last + 1, acc) == RunBody(p, i + 1, last + 1, acc')
            && Interpret(p, i, acc.state, budget, LogAt(first, i, acc, before))
               == Interpret(p, i + 1, acc'.state, budget, LogAt(first, i + 1, acc', before))
  {
    hide IsLeader, MoveResult, FindStart, EvaluateCondition;
    assert Resolves(p, i);
    var (now, effect) := MoveResult(p.emissions[i].operation, acc.state).value;
    assert before.effects + acc.effects + [effect] == before.effects + (acc.effects + [effect]);
  }

  lemma FaultStep(p: Program, first: nat, i: nat, last: nat, acc: Body, budget: nat, before: Log)
    requires Interior(p, first, i, last, budget, before) && acc.stopped.None? && !p.emissions[i].operation.Nop?
    requires !(IsMove(p.emissions[i].operation) && MoveResult(p.emissions[i].operation, acc.state).Ok?)
    ensures var body := RunBody(p, i, last + 1, acc);
            && body.stopped.Some?
            && Interpret(p, i, acc.state, budget, LogAt(first, i, acc, before))
               == Continue(p, last, body, budget, before)
  {
    hide IsLeader, MoveResult, FindStart, EvaluateCondition;
    assert Resolves(p, i);
  }

  /** From emission `i` of a block to its end, the interpreter takes the same steps as the body loop.
      Only the block's first emission is a leader, so the budget is charged once. */
  lemma {:induction false} BodySimulates(
    p: Program, first: nat, i: nat, last: nat, acc: Body, budget: nat, before: Log)
    requires AllBranchesResolve(p) && first <= i <= last < |p.emissions| && before.entered < budget
    requires IsLeader(p, first) && (forall k :: first < k <= last ==> !IsLeader(p, k))
    requires forall k :: first <= k < last ==> !IsControl(p.emissions[k].operation)
    requires acc.stopped.None? && acc.decision.None?
    ensures BodyDecided(p, last, RunBody(p, i, last + 1, acc))
    ensures Interpret(p, i, acc.state, budget, LogAt(first, i, acc, before))
         == Continue(p, last, RunBody(p, i, last + 1, acc), budget, before)
    decreases last - i
  {
    hide IsLeader, MoveResult, FindStart, EvaluateCondition, Interpret, RunBody, LogAt, Continue;
    BodyDecision(p, i, last, acc);
    var op := p.emissions[i].operation;
    var acc' := acc.(completed := acc.completed + 1);
    if i == last {
      LastStep(p, first, last, acc, budget, before);
    } else if op.Nop? {
      NopStep(p, first, i, last, acc, budget, before);
      BodySimulates(p, first, i + 1, last, acc', budget, before);
    } else if IsMove(op) && MoveResult(op, acc.state).Ok? {
      var (now, effect) := MoveResult(op, acc.state).value;
      MoveStep(p, first, i, last, acc, budget, before);
      BodySimulates(p, first, i + 1, last, acc'.(state := now, effects := acc.effects + [effect]), budget, before);
    } else {
      FaultStep(p, first, i, last, acc, budget, before);
    }
  }

  ghost predicate BodyDecided(p: Program, last: nat, body: Body)
    requires last < |p.emissions|
  {
    body.stopped.None? && p.emissions[last].operation.ConditionalBranch? ==> body.decision.Some?
  }

  lemma LastStep(p: Program, first: nat, last: nat, acc: Body, budget: nat, before: Log)
    requires AllBranchesResolve(p) && first <= last < |p.emissions| && before.entered < budget
    requires IsLeader(p, first) && (first < last ==> !IsLeader(p, last))
    requires acc.stopped.None? && acc.decision.None?
    ensures BodyDecided(p, last, RunBody(p, last, last + 1, acc))
    ensures Interpret(p, last, acc.state, budget, LogAt(first, last, acc, before))
         == Continue(p, last, RunBody(p, last, last + 1, acc), budget, before)
  {
    hide IsLeader, MoveResult, FindStart, EvaluateCondition;
    assert Resolves(p, last);
    var op := p.emissions[last].operation;
    assert before.effects + acc.effects + [] == before.effects + acc.effects;
    if IsMove(op) && MoveResult(op, acc.state).Ok? {
      var (now, effect) := MoveResult(op, acc.state).value;
      assert before.effects + acc.effects + [effect] == before.effects + (acc.effects + [effect]);
    }
  }

  // ----- the whole run -----

  function AllEffects(blocks: seq<BlockExecution>): (r: seq<Effect>) {
    if blocks == [] then [] else AllEffects(blocks[..|blocks| - 1]) + blocks[|blocks| - 1].effects
  }

  function TotalSteps(blocks: seq<BlockExecution>): (r: nat) {
    if blocks == [] then 0 else TotalSteps(blocks[..|blocks| - 1]) + blocks[|blocks| - 1].executed
  }

  function LogOf(blocks: seq<BlockExecution>): (log: Log) {
    Log(AllEffects(blocks), TotalSteps(blocks), |blocks|)
  }

  predicate SameFailure(failure: Failure, e: BlockError) {
    match failure
    case NotScalar => e.code == BlockUnsupportedOperation && e.scalarError == None
    case ScalarFailure(error) => e.code == ScalarExecutionFailure && e.scalarError == Some(error)
  }

  /** The block, and the state on entering it, after `n` blocks have run from block `b` in state `s`. */
  function Reached(p: Program, g: Graph, b: nat, s: ScalarValue, n: nat): (r: (nat, ScalarValue))
    decreases n
  {
    if n == 0 then (b, s)
    else
      var (result, now) := BlockRun(p, g, b, s);
      if result.Ok? && result.value.successor.Some? then Reached(p, g, result.value.successor.value.target, now, n - 1)
      else (b, s)
  }

  /** The writes of one block entered in state `s`, up to its end or to the emission that fails. */
  function BlockEffects(p: Program, block: Block, s: ScalarValue): (r: seq<Effect>) {
    if ExtentOk(p, block) then RunBody(p, block.first, block.first + block.count, Start(s)).effects else []
  }

  /** The report of a run from block `b` in state `s`, with `done` blocks behind it, says the same as
      the interpreter's outcome. When a block fails half way, the report keeps the writes of completed
      blocks only; the interpreter's writes are those followed by the failing block's own. */
  ghost predicate Agrees(
    p: Program, g: Graph, b: nat, s: ScalarValue, done: nat, run: RunOutcome, outcome: Outcome)
  {
    match run.0
    case Ok(blocks) => outcome == Done(run.1, LogOf(blocks))
    case Err(e) =>
      match e.code
      case BudgetExhausted =>
        && e.current < |g.blocks|
        && outcome == Exhausted(g.blocks[e.current].first, run.1, LogOf(e.completed))
      case BlockFailure =>
        && e.blockError.Some? && e.blockError.value.block == e.current
        && outcome.Failed?
        && outcome.pc == e.blockError.value.emission
        && outcome.state == run.1
        && outcome.log.steps == TotalSteps(e.completed) + e.blockError.value.completed
        && outcome.log.entered == |e.completed| + 1
        && done <= |e.completed| && e.current < |g.blocks|
        && (var (at, entered) := Reached(p, g, b, s, |e.completed| - done);
            && at == e.current
            && outcome.log.effects == AllEffects(e.completed) + BlockEffects(p, g.blocks[at], entered))
        && SameFailure(outcome.failure, e.blockError.value)
      case _ => false
  }

  /** One block of a built graph: none of the structural refusals can happen, and the interpreter
      continues exactly where the block leaves off. */
  lemma BlockSimulates(p: Program, g: Graph, b: nat, s: ScalarValue, budget: nat, before: Log)
    requires IsGraphOf(p, g) && b < |g.blocks| && before.entered < budget
    ensures ExtentOk(p, g.blocks[b])
    ensures var first, last := g.blocks[b].first, g.blocks[b].first + g.blocks[b].count - 1;
            var body := RunBody(p, first, last + 1, Start(s));
            && BlockRun(p, g, b, s) == (FinishBlock(p, g, b, last, body), body.state)
            && BodyDecided(p, last, body)
            && Interpret(p, first, s, budget, before) == Continue(p, last, body, budget, before)
            && (body.stopped.None? ==>
                  && Resolves(p, last)
                  && var selected := SelectSuccessor(p, g, b, body.decision);
                     && selected.Ok?
                     && (NextPc(p, last, body.decision).None? <==> selected.value.None?)
                     && (selected.value.Some? ==>
                           && selected.value.value.target < |g.blocks|
                           && g.blocks[selected.value.value.target].first == NextPc(p, last, body.decision).value))
  {
    hide IsLeader, RunBody, FindStart, WellTiled, EdgesOf, SelectSuccessor, LeaderWithin;
    assert BlockOk(p, g.blocks, b);
    var firsts := Firsts(g.blocks);
    var first, last := g.blocks[b].first, g.blocks[b].first + g.blocks[b].count - 1;
    assert firsts[b] in firsts;
    assert IsLeader(p, first);
    forall k | first < k <= last
      ensures !IsLeader(p, k)
    {
      NoInteriorLeader(p, firsts, b, k);
    }
    forall k | first <= k < last
      ensures !IsControl(p.emissions[k].operation)
    {
      NoInteriorControl(p, g, b, k);
    }
    assert Log(before.effects + [], before.steps + 0, before.entered) == before;
    BodySimulates(p, first, first, last, Start(s), budget, before);
    BodyDecision(p, first, last, Start(s));
    var body := RunBody(p, first, last + 1, Start(s));
    if body.stopped.None? {
      SelectionFollowsControl(p, g, b, body.decision);
    }
  }

  /** Agreement after one more block is agreement before it. */
  lemma AgreesFromEarlier(
    p: Program, g: Graph, b: nat, s: ScalarValue, done: nat, execution: BlockExecution, now: ScalarValue,
    run: RunOutcome, outcome: Outcome)
    requires BlockRun(p, g, b, s) == (Ok(execution), now) && execution.successor.Some?
    requires Agrees(p, g, execution.successor.value.target, now, done + 1, run, outcome)
    ensures Agrees(p, g, b, s, done, run, outcome)
  {
    hide BlockRun, LogOf, AllEffects, TotalSteps, BlockEffects, SameFailure;
  }

  /** A block that fails half way: the interpreter stops at the same emission with the same writes. */
  lemma FailureAgrees(
    p: Program, g: Graph, b: nat, budget: nat, executed: seq<BlockExecution>, s: ScalarValue, body: Body)
    requires IsGraphOf(p, g) && b < |g.blocks| && |executed| < budget && ExtentOk(p, g.blocks[b])
    requires body == RunBody(p, g.blocks[b].first, g.blocks[b].first + g.blocks[b].count, Start(s))
    requires body.stopped.Some?
    ensures var last := g.blocks[b].first + g.blocks[b].count - 1;
            FinishBlock(p, g, b, last, body).Err?
            && Agrees(p, g, b, s, |executed|,
                      (Err(RunError(BlockFailure, b, executed, Some(FinishBlock(p, g, b, last, body).error))),
                       body.state),
                      Continue(p, last, body, budget, LogOf(executed)))
  {
    hide RunBody, SelectSuccessor, BlockRun, AllEffects, TotalSteps, IsGraphOf;
    GraphsResolve(p, g);
  }

  lemma GraphsResolve(p: Program, g: Graph)
    ensures IsGraphOf(p, g) ==> AllBranchesResolve(p)
  {
  }

  lemma {:induction false} RunSimulates(
    p: Program, g: Graph, b: nat, budget: nat, executed: seq<BlockExecution>, s: ScalarValue)
    requires IsGraphOf(p, g) && b < |g.blocks| && |executed| <= budget
    ensures ExtentOk(p, g.blocks[b])
    ensures Agrees(p, g, b, s, |executed|, RunFrom(p, g, b, budget, executed, s),
                   Interpret(p, g.blocks[b].first, s, budget, LogOf(executed)))
    decreases budget - |executed|, 1
  {
    hide IsLeader, RunBody, SelectSuccessor, FindStart, WellTiled, CutsAtLeaders, BlockRun, Reached, BlockEffects;
    assert BlockOk(p, g.blocks, b);
    if |executed| == budget {
      assert IsLeader(p, g.blocks[b].first) by { FirstsAreLeaders(p, g, b); }
    } else {
      BlockSimulates(p, g, b, s, budget, LogOf(executed));
      var first, last := g.blocks[b].first, g.blocks[b].first + g.blocks[b].count - 1;
      var body := RunBody(p, first, last + 1, Start(s));
      if body.stopped.Some? {
        hide Agrees, Continue, Interpret, FinishBlock;
        FailureAgrees(p, g, b, budget, executed, s, body);
      } else {
        SuccessAgrees(p, g, b, budget, executed, s, body);
      }
    }
  }

  /** A block that completes: the run is over, or the rest of it agrees by induction. */
  lemma {:induction false} SuccessAgrees(
    p: Program, g: Graph, b: nat, budget: nat, executed: seq<BlockExecution>, s: ScalarValue, body: Body)
    requires IsGraphOf(p, g) && b < |g.blocks| && |executed| < budget && ExtentOk(p, g.blocks[b])
    requires body == RunBody(p, g.blocks[b].first, g.blocks[b].first + g.blocks[b].count, Start(s))
    requires body.stopped.None?
    ensures Agrees(p, g, b, s, |executed|, RunFrom(p, g, b, budget, executed, s),
                   Interpret(p, g.blocks[b].first, s, budget, LogOf(executed)))
    decreases budget - |executed|, 0
  {
    hide IsLeader, RunBody, SelectSuccessor, FindStart, WellTiled, CutsAtLeaders, BlockRun, Reached, BlockEffects;
    BlockSimulates(p, g, b, s, budget, LogOf(executed));
    var last := g.blocks[b].first + g.blocks[b].count - 1;
    var execution := FinishBlock(p, g, b, last, body).value;
    var executed' := executed + [execution];
    assert executed'[..|executed|] == executed;
    assert BlockRun(p, g, b, s) == (Ok(execution), body.state);
    if execution.successor.Some? {
      hide Agrees;
      RunSimulates(p, g, execution.successor.value.target, budget, executed', body.state);
      AgreesFromEarlier(p, g, b, s, |executed|, execution, body.state,
                        RunFrom(p, g, b, budget, executed, s),
                        Interpret(p, g.blocks[b].first, s, budget, LogOf(executed)));
    }
  }

  lemma FirstsAreLeaders(p: Program, g: Graph, b: nat)
    requires IsGraphOf(p, g) && b < |g.blocks|
    ensures IsLeader(p, g.blocks[b].first)
  {
    var firsts := Firsts(g.blocks);
    assert firsts[b] in firsts;
  }

  /** Main theorem: for every program with a built graph, entry block, budget and start state, the
      block-by-block run and the one-emission interpreter end the same way: same final state, same
      writes in the same order, same stopping or failing emission, and exhaustion exactly together.
      In particular none of the mismatch, extent, interior-control and topology refusals occurs. */
  lemma ProgramRunRefinesInterpreter(p: Program, g: Graph, entry: nat, budget: nat, s: ScalarValue)
    requires IsGraphOf(p, g) && entry < |g.blocks|
    ensures g.blocks[entry].first < |p.emissions|
    ensures Agrees(p, g, entry, s, 0, ProgramRun(p, g, entry, budget, s),
                   Interpret(p, g.blocks[entry].first, s, budget, Log([], 0, 0)))
  {
    RunSimulates(p, g, entry, budget, [], s);
    assert LogOf([]) == Log([], 0, 0);
  }

  /** A lowered stream never fails on a scalar move: whatever stops it is an operation outside the
      scalar subset. */
  lemma LoweredRunFailsOnlyOnUnsupported(
    words: seq<u32>, p: Program, g: Graph, entry: nat, budget: nat, s: ScalarValue)
    requires IsLoweringOf(words, p) && IsGraphOf(p, g) && entry < |g.blocks|
    requires ProgramRun(p, g, entry, budget, s).0.Err?
    ensures var e := ProgramRun(p, g, entry, budget, s).0.error;
            || e.code == BudgetExhausted
            || (&& e.code == BlockFailure && e.blockError.Some?
                && e.blockError.value.code == BlockUnsupportedOperation)
  {
    hide IsLoweringOf, ProgramRun, Interpret, MoveResult, LogOf, AllEffects, TotalSteps;
    hide CutsAtLeaders, WellTiled, Reached;
    ProgramRunRefinesInterpreter(p, g, entry, budget, s);
    LoweredMovesAlwaysExecute(words, p);
    InterpreterFailsOnlyOnUnsupported(p, g.blocks[entry].first, s, budget, Log([], 0, 0));
  }

  lemma LoweredMovesAlwaysExecute(words: seq<u32>, p: Program)
    requires IsLoweringOf(words, p)
    ensures forall k, t: ScalarValue :: 0 <= k < |p.emissions| && IsMove(p.emissions[k].operation) ==>
              MoveResult(p.emissions[k].operation, t).Ok?
  {
    hide LoweredFrom, MoveResult, TiledBy;
    forall k, t: ScalarValue | 0 <= k < |p.emissions| && IsMove(p.emissions[k].operation)
      ensures MoveResult(p.emissions[k].operation, t).Ok?
    {
      assert LoweredFrom(words, p.emissions[k]);
      LoweredMovesExecute(words, p.emissions[k], t);
    }
  }

  lemma {:induction false} InterpreterFailsOnlyOnUnsupported(
    p: Program, pc: nat, s: ScalarValue, budget: nat, log: Log)
    requires AllBranchesResolve(p) && pc < |p.emissions| && log.entered <= budget
    requires forall k, t: ScalarValue :: 0 <= k < |p.emissions| && IsMove(p.emissions[k].operation) ==>
               MoveResult(p.emissions[k].operation, t).Ok?
    ensures var r := Interpret(p, pc, s, budget, log);
            r.Failed? ==> r.failure == NotScalar
    decreases if IsLeader(p, pc) then budget - log.entered else budget - log.entered + 1, |p.emissions| - pc
  {
    hide MoveResult;
    if !(IsLeader(p, pc) && log.entered == budget) {
      JumpsLandOnLeaders(p, pc, s);
      var step := Step(p, pc, s);
      if step.Goto? {
        var log' := Entering(p, pc, log).(effects := log.effects + step.effects, steps := log.steps + 1);
        InterpreterFailsOnlyOnUnsupported(p, step.pc, step.state, budget, log');
      }
    }
  }
}
