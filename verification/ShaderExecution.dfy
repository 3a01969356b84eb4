/** Successor selection, one-block execution and the budgeted block-to-block run. */
module ShaderExecution {
  import opened Machine
  import opened ShaderIr
  import opened ShaderProgram
  import opened ShaderCfg

  datatype Decision = Decision(condition: BranchCondition, taken: bool)

  function EvaluateCondition(c: BranchCondition, s: ScalarValue): (taken: bool) {
    match c
    case SccZero => !s.scc
    case SccOne => s.scc
    case VccZero => s.vcc == 0
    case VccNonzero => s.vcc != 0
    case ExecZero => s.exec == 0
    case ExecNonzero => s.exec != 0
  }

  // ----- select_shader_cfg_successor -----

  datatype SuccessorErrorCode =
    | SelectMismatch | SelectBlockOutOfBounds | SelectInvalidExtent | InvalidEdgeTarget | InvalidTopology
    | DecisionRequired | UnexpectedDecision | ConditionMismatch
  datatype SuccessorError = SuccessorError(code: SuccessorErrorCode, block: nat, edge: Option<nat>)

  predicate Matches(p: Program, g: Graph) {
    g.sourceWordCount == p.sourceWordCount && g.emissionCount == |p.emissions|
  }

  predicate ExtentOk(p: Program, b: Block) {
    b.count > 0 && b.first + b.count <= |p.emissions|
  }

  function FirstInvalidEdge(edges: seq<Edge>, blockCount: nat, i: nat): (r: Option<nat>)
    requires i <= |edges|
    ensures r.None? ==> forall k :: i <= k < |edges| ==> edges[k].target < blockCount
    ensures r.Some? ==> i <= r.value < |edges| && edges[r.value].target >= blockCount
    decreases |edges| - i
  {
    if i == |edges| then None
    else if edges[i].target >= blockCount then Some(i)
    else FirstInvalidEdge(edges, blockCount, i + 1)
  }

  datatype BranchEdges = BadEdges | BranchEdges(taken: Option<Edge>, fallthrough: Option<Edge>)

  function ScanEdges(edges: seq<Edge>, i: nat, taken: Option<Edge>, fallthrough: Option<Edge>): (r: BranchEdges)
    requires i <= |edges|
    decreases |edges| - i
  {
    if i == |edges| then BranchEdges(taken, fallthrough)
    else
      match edges[i].kind
      case BranchTaken =>
        if taken.Some? then BadEdges else ScanEdges(edges, i + 1, Some(edges[i]), fallthrough)
      case BranchFallthrough =>
        if fallthrough.Some? then BadEdges else ScanEdges(edges, i + 1, taken, Some(edges[i]))
      case _ => BadEdges
  }

  function SelectConditional(block: Block, b: nat, hasFallthrough: bool, taken: bool)
    : (r: Result<Option<Edge>, SuccessorError>)
  {
    var bad := Err(SuccessorError(InvalidTopology, b, None));
    match ScanEdges(block.successors, 0, None, None)
    case BadEdges => bad
    case BranchEdges(takenEdge, fallEdge) =>
      if || takenEdge.None?
         || (hasFallthrough && fallEdge.None?)
         || (!hasFallthrough && fallEdge.Some?)
         || |block.successors| != (if hasFallthrough then 2 else 1) then bad
      else if hasFallthrough && fallEdge.value.target != b + 1 then bad
      else if taken then Ok(takenEdge)
      else Ok(fallEdge)
  }

  function SelectSuccessor(p: Program, g: Graph, b: nat, decision: Option<Decision>)
    : (r: Result<Option<Edge>, SuccessorError>)
  {
    if !Matches(p, g) then Err(SuccessorError(SelectMismatch, b, None))
    else if b >= |g.blocks| then Err(SuccessorError(SelectBlockOutOfBounds, b, None))
    else
      var block := g.blocks[b];
      if !ExtentOk(p, block) then Err(SuccessorError(SelectInvalidExtent, b, None))
      else
        var invalid := FirstInvalidEdge(block.successors, |g.blocks|, 0);
        if invalid.Some? then Err(SuccessorError(InvalidEdgeTarget, b, invalid))
        else
          var last := block.first + block.count - 1;
          var hasFallthrough := last + 1 < |p.emissions|;
          match p.emissions[last].operation
          case EndProgram =>
            if decision.Some? then Err(SuccessorError(UnexpectedDecision, b, None))
            else if block.successors != [] then Err(SuccessorError(InvalidTopology, b, None))
            else Ok(None)
          case RelativeBranch(_) =>
            if decision.Some? then Err(SuccessorError(UnexpectedDecision, b, None))
            else if |block.successors| != 1 || block.successors[0].kind != UnconditionalBranch then
              Err(SuccessorError(InvalidTopology, b, None))
            else Ok(Some(block.successors[0]))
          case ConditionalBranch(condition, _) =>
            if decision.None? then Err(SuccessorError(DecisionRequired, b, None))
            else if decision.value.condition != condition then Err(SuccessorError(ConditionMismatch, b, None))
            else SelectConditional(block, b, hasFallthrough, decision.value.taken)
          case _ =>
            if decision.Some? then Err(SuccessorError(UnexpectedDecision, b, None))
            else if hasFallthrough then
              if || |block.successors| != 1
                 || block.successors[0].kind != LinearFallthrough
                 || block.successors[0].target != b + 1 then Err(SuccessorError(InvalidTopology, b, None))
              else Ok(Some(block.successors[0]))
            else if block.successors != [] then Err(SuccessorError(InvalidTopology, b, None))
            else Ok(None)
  }

  /** Exactly conditional branches come with a decision, about their own condition. */
  predicate DecisionFits(op: Operation, decision: Option<Decision>) {
    if op.ConditionalBranch? then decision.Some? && decision.value.condition == op.condition else decision.None?
  }

  /** The edge that selection must follow, on any graph, built or not: the shape of the successor list
      depends on the last operation of the block and on whether anything follows it. */
  ghost predicate Follows(op: Operation, b: nat, fallsThrough: bool, succ: seq<Edge>, taken: bool, edge: Option<Edge>) {
    if op.EndProgram? then succ == [] && edge == None
    else if op.RelativeBranch? then |succ| == 1 && succ[0].kind == UnconditionalBranch && edge == Some(succ[0])
    else if op.ConditionalBranch? then
      exists jump: Edge :: jump.kind == BranchTaken && FollowsBranch(b, fallsThrough, succ, taken, edge, jump)
    else if fallsThrough then succ == [Edge(LinearFallthrough, b + 1)] && edge == Some(succ[0])
    else succ == [] && edge == None
  }

  predicate FollowsBranch(b: nat, fallsThrough: bool, succ: seq<Edge>, taken: bool, edge: Option<Edge>, jump: Edge) {
    var fall := Edge(BranchFallthrough, b + 1);
    && (if fallsThrough then succ == [jump, fall] || succ == [fall, jump] else succ == [jump])
    && edge == (if taken then Some(jump) else if fallsThrough then Some(fall) else None)
  }

  lemma ConditionalMeans(block: Block, b: nat, fallsThrough: bool, taken: bool, edge: Option<Edge>)
    ensures SelectConditional(block, b, fallsThrough, taken) == Ok(edge) <==>
            exists jump: Edge ::
              jump.kind == BranchTaken && FollowsBranch(b, fallsThrough, block.successors, taken, edge, jump)
    ensures SelectConditional(block, b, fallsThrough, taken).Err? ==>
              SelectConditional(block, b, fallsThrough, taken).error == SuccessorError(InvalidTopology, b, None)
  {
    hide ScanEdges;
    var succ := block.successors;
    ScanSmall(succ);
    if SelectConditional(block, b, fallsThrough, taken) == Ok(edge) {
      var jump := if succ[0].kind == BranchTaken then succ[0] else succ[1];
      assert fallsThrough ==> succ == [succ[0], succ[1]];
      assert FollowsBranch(b, fallsThrough, succ, taken, edge, jump);
    }
  }

  /** What the edge scan finds in a list of one or two edges. */
  lemma ScanSmall(succ: seq<Edge>)
    ensures |succ| == 0 ==> ScanEdges(succ, 0, None, None) == BranchEdges(None, None)
    ensures |succ| == 1 ==>
              ScanEdges(succ, 0, None, None) == if succ[0].kind == BranchTaken then BranchEdges(Some(succ[0]), None)
                                                else if succ[0].kind == BranchFallthrough
                                                then BranchEdges(None, Some(succ[0])) else BadEdges
    ensures |succ| == 2 ==>
              ScanEdges(succ, 0, None, None) ==
              if succ[0].kind == BranchTaken && succ[1].kind == BranchFallthrough
              then BranchEdges(Some(succ[0]), Some(succ[1]))
              else if succ[0].kind == BranchFallthrough && succ[1].kind == BranchTaken
              then BranchEdges(Some(succ[1]), Some(succ[0])) else BadEdges
  {
    if |succ| == 1 {
      ScanOne(succ, 0, None, None);
    } else if |succ| == 2 {
      ScanOne(succ, 0, None, None);
      ScanOne(succ, 1, Some(succ[0]), None);
      ScanOne(succ, 1, None, Some(succ[0]));
    }
  }

  lemma ScanOne(succ: seq<Edge>, i: nat, taken: Option<Edge>, fall: Option<Edge>)
    requires i < |succ|
    ensures ScanEdges(succ, i, taken, fall) ==
            if succ[i].kind == BranchTaken && taken.None? then ScanEdges(succ, i + 1, Some(succ[i]), fall)
            else if succ[i].kind == BranchFallthrough && fall.None? then ScanEdges(succ, i + 1, taken, Some(succ[i]))
            else BadEdges
  {
  }

  /** Selection on any program and graph: it follows an edge exactly when sizes, extent, targets, decision
      and shape are right, and otherwise names the first of these that is not. */
  lemma SelectionMeans(p: Program, g: Graph, b: nat, decision: Option<Decision>)
    ensures SelectionIs(p, g, b, decision, SelectSuccessor(p, g, b, decision))
  {
    hide SelectConditional, FollowedBy, SelectionShape;
    if Matches(p, g) && b < |g.blocks| && ExtentOk(p, g.blocks[b]) {
      if FirstInvalidEdge(g.blocks[b].successors, |g.blocks|, 0).None? {
        ShapeMeans(p, g, b, decision);
      } else {
        FirstInvalidIsFirst(g.blocks[b].successors, |g.blocks|, 0);
      }
    }
  }

  lemma {:induction false} FirstInvalidIsFirst(edges: seq<Edge>, blockCount: nat, i: nat)
    requires i <= |edges| && FirstInvalidEdge(edges, blockCount, i).Some?
    ensures forall j :: i <= j < FirstInvalidEdge(edges, blockCount, i).value ==> edges[j].target < blockCount
    decreases |edges| - i
  {
    if edges[i].target < blockCount {
      FirstInvalidIsFirst(edges, blockCount, i + 1);
    }
  }

  lemma ShapeMeans(p: Program, g: Graph, b: nat, decision: Option<Decision>)
    requires Matches(p, g) && b < |g.blocks| && ExtentOk(p, g.blocks[b])
    requires FirstInvalidEdge(g.blocks[b].successors, |g.blocks|, 0).None?
    ensures SelectionShape(p, g.blocks[b], b, decision, SelectSuccessor(p, g, b, decision))
  {
    hide FollowedBy, SelectConditional, FirstInvalidEdge;
    var block := g.blocks[b];
    var op := p.emissions[block.first + block.count - 1].operation;
    if DecisionFits(op, decision) {
      forall edge
        ensures SelectSuccessor(p, g, b, decision) == Ok(edge) <==> FollowedBy(p, block, b, decision, edge)
      {
        EdgeMeans(p, g, b, decision, edge);
      }
      if op.ConditionalBranch? {
        ConditionalMeans(block, b, block.first + block.count < |p.emissions|, decision.value.taken, None);
      }
    }
  }

  ghost predicate FollowedBy(p: Program, block: Block, b: nat, decision: Option<Decision>, edge: Option<Edge>)
    requires ExtentOk(p, block)
  {
    var last := block.first + block.count - 1;
    Follows(p.emissions[last].operation, b, last + 1 < |p.emissions|, block.successors,
            decision.Some? && decision.value.taken, edge)
  }

  lemma EdgeMeans(p: Program, g: Graph, b: nat, decision: Option<Decision>, edge: Option<Edge>)
    requires Matches(p, g) && b < |g.blocks| && ExtentOk(p, g.blocks[b])
    ensures var block := g.blocks[b];
            var op := p.emissions[block.first + block.count - 1].operation;
            DecisionFits(op, decision) && FirstInvalidEdge(block.successors, |g.blocks|, 0).None? ==>
              (SelectSuccessor(p, g, b, decision) == Ok(edge) <==> FollowedBy(p, block, b, decision, edge))
  {
    hide SelectConditional;
    var block := g.blocks[b];
    var last := block.first + block.count - 1;
    if p.emissions[last].operation.ConditionalBranch? && decision.Some? {
      ConditionalMeans(block, b, last + 1 < |p.emissions|, decision.value.taken, edge);
    }
  }

  ghost predicate SelectionIs(
    p: Program, g: Graph, b: nat, decision: Option<Decision>, r: Result<Option<Edge>, SuccessorError>)
  {
    if g.sourceWordCount != p.sourceWordCount || g.emissionCount != |p.emissions|
    then r == Err(SuccessorError(SelectMismatch, b, None))
    else if b >= |g.blocks| then r == Err(SuccessorError(SelectBlockOutOfBounds, b, None))
    else if g.blocks[b].count == 0 || g.blocks[b].first + g.blocks[b].count > |p.emissions|
    then r == Err(SuccessorError(SelectInvalidExtent, b, None))
    else if exists k :: 0 <= k < |g.blocks[b].successors| && g.blocks[b].successors[k].target >= |g.blocks| then
      exists k :: && 0 <= k < |g.blocks[b].successors| && g.blocks[b].successors[k].target >= |g.blocks|
                  && (forall j :: 0 <= j < k ==> g.blocks[b].successors[j].target < |g.blocks|)
                  && r == Err(SuccessorError(InvalidEdgeTarget, b, Some(k)))
    else SelectionShape(p, g.blocks[b], b, decision, r)
  }

  ghost predicate SelectionShape(
    p: Program, block: Block, b: nat, decision: Option<Decision>, r: Result<Option<Edge>, SuccessorError>)
    requires ExtentOk(p, block)
  {
    var op := p.emissions[block.first + block.count - 1].operation;
    if op.ConditionalBranch? && decision.None? then r == Err(SuccessorError(DecisionRequired, b, None))
    else if op.ConditionalBranch? && decision.value.condition != op.condition
    then r == Err(SuccessorError(ConditionMismatch, b, None))
    else if !op.ConditionalBranch? && decision.Some? then r == Err(SuccessorError(UnexpectedDecision, b, None))
    else if exists edge :: FollowedBy(p, block, b, decision, edge)
    then r.Ok? && FollowedBy(p, block, b, decision, r.value)
    else r == Err(SuccessorError(InvalidTopology, b, None))
  }

  // ----- execute_shader_scalar_block -----

  datatype BlockErrorCode =
    | BlockGraphMismatch | BlockIndexOutOfBounds | InvalidBlockExtent | InvalidBlockControlFlow
    | BlockUnsupportedOperation | ScalarExecutionFailure | CfgSuccessorFailure
  datatype BlockError = BlockError(
    code: BlockErrorCode, block: nat, emission: nat, completed: nat,
    scalarError: Option<ScalarError>, successorError: Option<SuccessorError>)
  datatype BlockExecution = BlockExecution(
    block: nat, executed: nat, effects: seq<Effect>, decision: Option<Decision>, successor: Option<Edge>)

  /** Why an emission could not be executed. */
  datatype Failure = NotScalar | ScalarFailure(error: ScalarError)

  /** Where the body loop of a block got to. */
  datatype Body = Body(
    state: ScalarValue, effects: seq<Effect>, decision: Option<Decision>, completed: nat,
    stopped: Option<(nat, Failure)>)

  /** The body loop of a block from emission `i` up to `end`, on values. */
  function RunBody(p: Program, i: nat, end: nat, acc: Body): (r: Body)
    requires i <= end <= |p.emissions| && acc.stopped.None?
    decreases end - i
  {
    if i == end then acc
    else
      match p.emissions[i].operation
      case Nop(_) => RunBody(p, i + 1, end, acc.(completed := acc.completed + 1))
      case RelativeBranch(_) => RunBody(p, i + 1, end, acc.(completed := acc.completed + 1))
      case EndProgram => RunBody(p, i + 1, end, acc.(completed := acc.completed + 1))
      case ConditionalBranch(condition, _) =>
        var decision := Decision(condition, EvaluateCondition(condition, acc.state));
        RunBody(p, i + 1, end, acc.(decision := Some(decision), completed := acc.completed + 1))
      case op =>
        if !IsMove(op) then acc.(stopped := Some((i, NotScalar)))
        else
          match MoveResult(op, acc.state)
          case Err(e) => acc.(stopped := Some((i, ScalarFailure(e))))
          case Ok((now, effect)) =>
            RunBody(p, i + 1, end,
                    acc.(state := now, effects := acc.effects + [effect], completed := acc.completed + 1))
  }

  function FirstControl(p: Program, i: nat, last: nat): (r: Option<nat>)
    requires i <= last <= |p.emissions|
    ensures r.None? ==> forall k :: i <= k < last ==> !IsControl(p.emissions[k].operation)
    ensures r.Some? ==> i <= r.value < last && IsControl(p.emissions[r.value].operation)
    decreases last - i
  {
    if i == last then None
    else if IsControl(p.emissions[i].operation) then Some(i)
    else FirstControl(p, i + 1, last)
  }

  function FinishBlock(p: Program, g: Graph, b: nat, last: nat, body: Body): (r: Result<BlockExecution, BlockError>) {
    if body.stopped.Some? then
      var (emission, failure) := body.stopped.value;
      match failure
      case NotScalar => Err(BlockError(BlockUnsupportedOperation, b, emission, body.completed, None, None))
      case ScalarFailure(e) => Err(BlockError(ScalarExecutionFailure, b, emission, body.completed, Some(e), None))
    else
      match SelectSuccessor(p, g, b, body.decision)
      case Err(e) => Err(BlockError(CfgSuccessorFailure, b, last, body.completed, None, Some(e)))
      case Ok(edge) => Ok(BlockExecution(b, body.completed, body.effects, body.decision, edge))
  }

  /** What a block reports: the first emission that could not be executed, a selection that failed, or
      everything the body did together with the edge that selection follows. */
  lemma FinishMeans(p: Program, g: Graph, b: nat, last: nat, body: Body)
    ensures var r := FinishBlock(p, g, b, last, body);
            && (body.stopped.Some? ==>
                  && r.Err? && r.error.block == b && r.error.emission == body.stopped.value.0
                  && r.error.completed == body.completed && r.error.successorError == None
                  && (if body.stopped.value.1.NotScalar?
                      then r.error.code == BlockUnsupportedOperation && r.error.scalarError == None
                      else r.error.code == ScalarExecutionFailure
                           && r.error.scalarError == Some(body.stopped.value.1.error)))
            && (body.stopped.None? && r.Err? ==>
                  && r.error.code == CfgSuccessorFailure && r.error.block == b && r.error.emission == last
                  && r.error.completed == body.completed && r.error.scalarError == None
                  && r.error.successorError.Some?
                  && SelectionIs(p, g, b, body.decision, Err(r.error.successorError.value)))
            && (r.Ok? ==>
                  && body.stopped.None? && r.value.block == b && r.value.executed == body.completed
                  && r.value.effects == body.effects && r.value.decision == body.decision
                  && SelectionIs(p, g, b, body.decision, Ok(r.value.successor)))
  {
    hide SelectSuccessor, SelectionIs;
    SelectionMeans(p, g, b, body.decision);
  }

  function Start(s: ScalarValue): (acc: Body) {
    Body(s, [], None, 0, None)
  }

  /** The result of one block and the state it leaves behind. */
  function BlockRun(p: Program, g: Graph, b: nat, s: ScalarValue)
    : (r: (Result<BlockExecution, BlockError>, ScalarValue))
  {
    if !Matches(p, g) then (Err(BlockError(BlockGraphMismatch, b, 0, 0, None, None)), s)
    else if b >= |g.blocks| then (Err(BlockError(BlockIndexOutOfBounds, b, 0, 0, None, None)), s)
    else
      var block := g.blocks[b];
      if !ExtentOk(p, block) then (Err(BlockError(InvalidBlockExtent, b, block.first, 0, None, None)), s)
      else
        var last := block.first + block.count - 1;
        var interior := FirstControl(p, block.first, last);
        if interior.Some? then (Err(BlockError(InvalidBlockControlFlow, b, interior.value, 0, None, None)), s)
        else
          var body := RunBody(p, block.first, last + 1, Start(s));
          (FinishBlock(p, g, b, last, body), body.state)
  }

  method FindInteriorControl(p: Program, first: nat, last: nat) returns (r: Option<nat>)
    requires first <= last <= |p.emissions|
    ensures r == FirstControl(p, first, last)
  {
    var i := first;
    while i < last
      invariant first <= i <= last
      invariant FirstControl(p, first, last) == FirstControl(p, i, last)
    {
      if IsControl(p.emissions[i].operation) {
        return Some(i);
      }
      i := i + 1;
    }
    return None;
  }

  method ExecuteBody(p: Program, first: nat, last: nat, state: ScalarState) returns (body: Body)
    requires state.Valid() && first <= last < |p.emissions|
    modifies state
    ensures state.Valid()
    ensures body == RunBody(p, first, last + 1, Start(old(state.Value())))
    ensures state.Value() == body.state
  {
    hide MoveResult;
    var effects: seq<Effect> := [];
    var decision: Option<Decision> := None;
    var completed := 0;
    var i := first;
    while i <= last
      invariant first <= i <= last + 1
      invariant state.Valid()
      invariant RunBody(p, first, last + 1, Start(old(state.Value())))
             == RunBody(p, i, last + 1, Body(state.Value(), effects, decision, completed, None))
    {
      var op := p.emissions[i].operation;
      if op.Nop? || op.RelativeBranch? || op.EndProgram? {
        completed := completed + 1;
      } else if op.ConditionalBranch? {
        decision := Some(Decision(op.condition, EvaluateCondition(op.condition, state.Value())));
        completed := completed + 1;
      } else if op.ScalarMove32? || op.ScalarMove64? {
        ghost var before := Body(state.Value(), effects, decision, completed, None);
        var execution := ExecuteScalarOperation(op, state);
        if execution.Err? {
          return Body(state.Value(), effects, decision, completed, Some((i, ScalarFailure(execution.error))));
        }
        effects := effects + [execution.value];
        completed := completed + 1;
      } else {
        return Body(state.Value(), effects, decision, completed, Some((i, NotScalar)));
      }
      i := i + 1;
    }
    return Body(state.Value(), effects, decision, completed, None);
  }

  /** `execute_shader_scalar_block`: writes made before a failing emission stay applied. */
  method ExecuteScalarBlock(p: Program, g: Graph, b: nat, state: ScalarState)
    returns (r: Result<BlockExecution, BlockError>)
    requires state.Valid()
    modifies state
    ensures state.Valid()
    ensures (r, state.Value()) == BlockRun(p, g, b, old(state.Value()))
  {
    if !Matches(p, g) {
      return Err(BlockError(BlockGraphMismatch, b, 0, 0, None, None));
    }
    if b >= |g.blocks| {
      return Err(BlockError(BlockIndexOutOfBounds, b, 0, 0, None, None));
    }
    var block := g.blocks[b];
    if !ExtentOk(p, block) {
      return Err(BlockError(InvalidBlockExtent, b, block.first, 0, None, None));
    }
    var last := block.first + block.count - 1;
    var interior := FindInteriorControl(p, block.first, last);
    if interior.Some? {
      return Err(BlockError(InvalidBlockControlFlow, b, interior.value, 0, None, None));
    }
    var body := ExecuteBody(p, block.first, last, state);
    return FinishBlock(p, g, b, last, body);
  }

  // ----- execute_shader_scalar_program -----

  datatype RunErrorCode = RunGraphMismatch | EntryBlockOutOfBounds | BudgetExhausted | BlockFailure
  datatype RunError = RunError(
    code: RunErrorCode, current: nat, completed: seq<BlockExecution>, blockError: Option<BlockError>)

  type RunOutcome = (Result<seq<BlockExecution>, RunError>, ScalarValue)

  /** The block-to-block loop from block `b`, on values. */
  function RunFrom(p: Program, g: Graph, b: nat, budget: nat, executed: seq<BlockExecution>, s: ScalarValue)
    : (r: RunOutcome)
    decreases budget - |executed|
  {
    if |executed| >= budget then (Err(RunError(BudgetExhausted, b, executed, None)), s)
    else
      var (result, now) := BlockRun(p, g, b, s);
      match result
      case Err(e) => (Err(RunError(BlockFailure, b, executed, Some(e))), now)
      case Ok(execution) =>
        if execution.successor.None? then (Ok(executed + [execution]), now)
        else RunFrom(p, g, execution.successor.value.target, budget, executed + [execution], now)
  }

  function ProgramRun(p: Program, g: Graph, entry: nat, budget: nat, s: ScalarValue): (r: RunOutcome) {
    if !Matches(p, g) then (Err(RunError(RunGraphMismatch, entry, [], None)), s)
    else if entry >= |g.blocks| then (Err(RunError(EntryBlockOutOfBounds, entry, [], None)), s)
    else RunFrom(p, g, entry, budget, [], s)
  }

  /** `execute_shader_scalar_program`. */
  method ExecuteScalarProgram(p: Program, g: Graph, entry: nat, budget: nat, state: ScalarState)
    returns (r: Result<seq<BlockExecution>, RunError>)
    requires state.Valid()
    modifies state
    ensures state.Valid()
    ensures (r, state.Value()) == ProgramRun(p, g, entry, budget, old(state.Value()))
  {
    hide BlockRun;
    if !Matches(p, g) {
      return Err(RunError(RunGraphMismatch, entry, [], None));
    }
    if entry >= |g.blocks| {
      return Err(RunError(EntryBlockOutOfBounds, entry, [], None));
    }
    var executed: seq<BlockExecution> := [];
    var current := entry;
    while true
      invariant state.Valid() && |executed| <= budget
      invariant RunFrom(p, g, entry, budget, [], old(state.Value()))
             == RunFrom(p, g, current, budget, executed, state.Value())
      decreases budget - |executed|
    {
      if |executed| >= budget {
        return Err(RunError(BudgetExhausted, current, executed, None));
      }
      var result := ExecuteScalarBlock(p, g, current, state);
      if result.Err? {
        return Err(RunError(BlockFailure, current, executed, Some(result.error)));
      }
      executed := executed + [result.value];
      if result.value.successor.None? {
        return Ok(executed);
      }
      current := result.value.successor.value.target;
    }
  }
}
