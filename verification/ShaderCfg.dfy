/** The control-flow graph builder: layout check, branch resolution by binary search, leader
    analysis, cutting into blocks and linking. */
module ShaderCfg {
  import opened Machine
  import opened ShaderIr
  import opened ShaderProgram
  import Rdna2

  datatype EdgeKind = LinearFallthrough | UnconditionalBranch | BranchTaken | BranchFallthrough
  datatype Edge = Edge(kind: EdgeKind, target: nat)
  datatype Block = Block(first: nat, count: nat, successors: seq<Edge>)
  datatype Graph = Graph(sourceWordCount: nat, emissionCount: nat, blocks: seq<Block>)

  datatype CfgErrorCode = InvalidProgramLayout | InvalidBranchDelta | InvalidBranchTarget
  datatype CfgError = CfgError(
    code: CfgErrorCode, emissionIndex: nat, sourceWordIndex: nat, targetWordIndex: Option<int>)

  // ----- specification -----

  /** The emission that starts at source word `w`, by a plain scan. */
  function FindStart(es: seq<Emission>, w: int): (r: Option<nat>)
    ensures r.Some? ==> r.value < |es| && es[r.value].source.wordIndex == w
    ensures r.None? ==> forall j :: 0 <= j < |es| ==> es[j].source.wordIndex != w
  {
    if es == [] then None
    else if es[|es| - 1].source.wordIndex == w then Some(|es| - 1)
    else FindStart(es[..|es| - 1], w)
  }

  predicate BranchAt(p: Program, i: int) {
    0 <= i < |p.emissions| && IsBranch(p.emissions[i].operation)
  }

  predicate ControlAt(p: Program, i: int) {
    0 <= i < |p.emissions| && IsControl(p.emissions[i].operation)
  }

  /** The word a branch points at; meaningful when the displacement is whole words. */
  function TargetWord(p: Program, i: nat): (w: int)
    requires BranchAt(p, i)
  {
    p.emissions[i].source.wordIndex + p.emissions[i].operation.byteDelta / 4
  }

  /** The emission a branch jumps to, if there is one. */
  function Target(p: Program, i: nat): (r: Option<nat>)
    requires BranchAt(p, i)
    ensures r.Some? ==> r.value < |p.emissions|
  {
    if p.emissions[i].operation.byteDelta % 4 != 0 then None else FindStart(p.emissions, TargetWord(p, i))
  }

  predicate JumpsTo(p: Program, i: int, j: int) {
    BranchAt(p, i) && Target(p, i) == Some(j)
  }

  predicate Resolves(p: Program, i: int) {
    BranchAt(p, i) ==> Target(p, i).Some?
  }

  ghost predicate AllBranchesResolve(p: Program) {
    forall i :: 0 <= i < |p.emissions| ==> Resolves(p, i)
  }

  /** Emissions where control can enter other than from the emission before: the first one, any
      branch target, and whatever follows a branch or an end of program. */
  ghost predicate IsLeader(p: Program, j: int) {
    0 <= j < |p.emissions| && LeaderWithin(p, j, |p.emissions|)
  }

  ghost predicate LeaderWithin(p: Program, j: int, m: int)
    requires m <= |p.emissions|
  {
    || j == 0
    || (0 < j <= m && ControlAt(p, j - 1))
    || (exists i :: 0 <= i < m && JumpsTo(p, i, j))
  }

  /** One past the last emission of the block with index `b`. */
  function EndOf(firsts: seq<nat>, b: nat, n: nat): (e: nat)
    requires b < |firsts|
  {
    if b + 1 < |firsts| then firsts[b + 1] else n
  }

  ghost predicate Increasing(firsts: seq<nat>, n: nat) {
    && (forall b :: 0 <= b < |firsts| ==> firsts[b] < n)
    && (forall a, b :: 0 <= a < b < |firsts| ==> firsts[a] < firsts[b])
  }

  /** The block starts are exactly the leaders, in order. */
  ghost predicate CutsAtLeaders(p: Program, firsts: seq<nat>) {
    var n := |p.emissions|;
    && (n == 0 <==> firsts == [])
    && (n > 0 ==> firsts[0] == 0)
    && Increasing(firsts, n)
    && (forall j :: 0 <= j < n ==> (IsLeader(p, j) <==> j in firsts))
  }

  predicate LandsOn(firsts: seq<nat>, e: Edge, t: nat) {
    e.target < |firsts| && firsts[e.target] == t
  }

  /** The edges leaving block `b`, as its last operation dictates. */
  predicate EdgesOf(p: Program, firsts: seq<nat>, b: nat, succ: seq<Edge>)
    requires b < |firsts| && 0 < EndOf(firsts, b, |p.emissions|) <= |p.emissions|
  {
    var end := EndOf(firsts, b, |p.emissions|);
    var fallsThrough := end < |p.emissions|;
    match p.emissions[end - 1].operation
    case EndProgram => succ == []
    case RelativeBranch(_) =>
      && Target(p, end - 1).Some?
      && |succ| == 1 && succ[0].kind == UnconditionalBranch
      && LandsOn(firsts, succ[0], Target(p, end - 1).value)
    case ConditionalBranch(_, _) =>
      && Target(p, end - 1).Some?
      && |succ| == (if fallsThrough then 2 else 1)
      && succ[0].kind == BranchTaken && LandsOn(firsts, succ[0], Target(p, end - 1).value)
      && (fallsThrough ==> succ[1] == Edge(BranchFallthrough, b + 1))
    case _ =>
      succ == if fallsThrough then [Edge(LinearFallthrough, b + 1)] else []
  }

  function Firsts(blocks: seq<Block>): (firsts: seq<nat>)
    ensures |firsts| == |blocks|
    ensures forall b :: 0 <= b < |blocks| ==> firsts[b] == blocks[b].first
  {
    seq(|blocks|, b requires 0 <= b < |blocks| => blocks[b].first)
  }

  ghost predicate BlockOk(p: Program, blocks: seq<Block>, b: nat)
    requires b < |blocks|
  {
    var firsts := Firsts(blocks);
    var end := EndOf(firsts, b, |p.emissions|);
    && blocks[b].count > 0
    && blocks[b].first + blocks[b].count == end <= |p.emissions|
    && EdgesOf(p, firsts, b, blocks[b].successors)
  }

  /** `g` is the control-flow graph of `p`. */
  ghost predicate IsGraphOf(p: Program, g: Graph) {
    && WellTiled(p) && AllBranchesResolve(p)
    && g.sourceWordCount == p.sourceWordCount && g.emissionCount == |p.emissions|
    && CutsAtLeaders(p, Firsts(g.blocks))
    && (forall b :: 0 <= b < |g.blocks| ==> BlockOk(p, g.blocks, b))
  }

  ghost predicate LayoutErrorAt(p: Program, e: CfgError) {
    var n := |p.emissions|;
    && e.code == InvalidProgramLayout && e.targetWordIndex == None
    && if p.sourceWordCount >= TWO63 then e.emissionIndex == 0 && e.sourceWordIndex == 0
       else
         && e.emissionIndex <= n
         && (forall i :: 0 <= i < e.emissionIndex ==> EmissionTiled(p, i))
         && if e.emissionIndex < n then
              !EmissionTiled(p, e.emissionIndex)
              && e.sourceWordIndex == p.emissions[e.emissionIndex].source.wordIndex
            else e.sourceWordIndex == StartOf(p.emissions, n) != p.sourceWordCount
  }

  /** The error names the first branch that does not resolve, and where it pointed. */
  ghost predicate BranchErrorAt(p: Program, e: CfgError) {
    && BranchAt(p, e.emissionIndex) && !Resolves(p, e.emissionIndex)
    && (forall i :: 0 <= i < e.emissionIndex ==> Resolves(p, i))
    && e.sourceWordIndex == p.emissions[e.emissionIndex].source.wordIndex
    && if p.emissions[e.emissionIndex].operation.byteDelta % 4 != 0
       then e.code == InvalidBranchDelta && e.targetWordIndex == None
       else e.code == InvalidBranchTarget && e.targetWordIndex == Some(TargetWord(p, e.emissionIndex))
  }

  // ----- layout check -----

  /** `validate_program_layout`. */
  method ValidateProgramLayout(p: Program) returns (r: Option<CfgError>)
    ensures r.None? <==> WellTiled(p)
    ensures r.Some? ==> LayoutErrorAt(p, r.value)
  {
    if p.sourceWordCount > TWO63 - 1 {
      return Some(CfgError(InvalidProgramLayout, 0, 0, None));
    }
    var expected := 0;
    var i := 0;
    while i < |p.emissions|
      invariant 0 <= i <= |p.emissions|
      invariant expected == StartOf(p.emissions, i) <= p.sourceWordCount
      invariant forall k :: 0 <= k < i ==> EmissionTiled(p, k)
    {
      var source := p.emissions[i].source;
      if || source.wordCount == 0
         || source.wordIndex != expected
         || expected > p.sourceWordCount
         || source.wordCount > p.sourceWordCount - expected
         || expected > U64_MAX / 4
         || source.byteOffset != expected * 4
      {
        assert !EmissionTiled(p, i);
        return Some(CfgError(InvalidProgramLayout, i, source.wordIndex, None));
      }
      expected := expected + source.wordCount;
      i := i + 1;
    }
    if expected != p.sourceWordCount {
      return Some(CfgError(InvalidProgramLayout, |p.emissions|, expected, None));
    }
    return None;
  }

  // ----- branch resolution -----

  lemma {:induction false} TiledIncreases(p: Program, i: nat, j: nat)
    requires WellTiled(p) && i < j < |p.emissions|
    ensures p.emissions[i].source.wordIndex < p.emissions[j].source.wordIndex
  {
    assert EmissionTiled(p, i) && EmissionTiled(p, j - 1) && EmissionTiled(p, j);
    if i < j - 1 {
      TiledIncreases(p, i, j - 1);
    }
  }

  /** `std::lower_bound` over the start words. */
  method LowerBound(p: Program, target: nat) returns (first: nat)
    requires WellTiled(p)
    ensures first <= |p.emissions|
    ensures forall j :: 0 <= j < first ==> p.emissions[j].source.wordIndex < target
    ensures forall j :: first <= j < |p.emissions| ==> target <= p.emissions[j].source.wordIndex
  {
    first := 0;
    var len := |p.emissions|;
    while len > 0
      invariant 0 <= len && first + len <= |p.emissions|
      invariant forall j :: 0 <= j < first ==> p.emissions[j].source.wordIndex < target
      invariant forall j :: first + len <= j < |p.emissions| ==> target <= p.emissions[j].source.wordIndex
    {
      var half := len / 2;
      var mid := first + half;
      forall j | 0 <= j < |p.emissions| && j != mid
        ensures if j < mid then p.emissions[j].source.wordIndex < p.emissions[mid].source.wordIndex
                else p.emissions[mid].source.wordIndex < p.emissions[j].source.wordIndex
      {
        if j < mid { TiledIncreases(p, j, mid); } else { TiledIncreases(p, mid, j); }
      }
      if p.emissions[mid].source.wordIndex < target {
        first, len := mid + 1, len - half - 1;
      } else {
        len := half;
      }
    }
  }

  datatype Resolution =
    | Resolved(emission: nat)
    | Unresolved(code: CfgErrorCode, targetWord: Option<int>)

  /** `resolve_branch_target`: binary search agrees with the plain scan of `Target`. */
  method ResolveBranchTarget(p: Program, i: nat) returns (r: Resolution)
    requires WellTiled(p) && BranchAt(p, i)
    ensures r.Resolved? <==> Target(p, i).Some?
    ensures r.Resolved? ==> r.emission == Target(p, i).value
    ensures r.Unresolved? ==>
              if p.emissions[i].operation.byteDelta % 4 != 0 then r == Unresolved(InvalidBranchDelta, None)
              else r == Unresolved(InvalidBranchTarget, Some(TargetWord(p, i)))
  {
    var delta := p.emissions[i].operation.byteDelta;
    if delta % 4 != 0 {
      return Unresolved(InvalidBranchDelta, None);
    }
    var source := p.emissions[i].source.wordIndex;
    var deltaWords := delta / 4;
    // The signed overflow exit is unreachable: a start word is at most U64_MAX / 4.
    assert EmissionTiled(p, i);
    assert source + deltaWords < TWO63;
    var target := source + deltaWords;
    forall j | 0 <= j < |p.emissions|
      ensures 0 <= p.emissions[j].source.wordIndex < p.sourceWordCount
    {
      assert EmissionTiled(p, j);
    }
    if target < 0 || target >= p.sourceWordCount {
      return Unresolved(InvalidBranchTarget, Some(target));
    }
    var found := LowerBound(p, target);
    ghost var spec := FindStart(p.emissions, target);
    if found == |p.emissions| || p.emissions[found].source.wordIndex != target {
      if spec.Some? && found < spec.value {
        TiledIncreases(p, found, spec.value);
      }
      return Unresolved(InvalidBranchTarget, Some(target));
    }
    if spec.Some? && spec.value != found {
      if spec.value < found { TiledIncreases(p, spec.value, found); } else { TiledIncreases(p, found, spec.value); }
    }
    return Resolved(found);
  }

  // ----- leaders -----

  datatype Marks = Marks(leaders: seq<bool>, targets: seq<Option<nat>>)

  /** Visiting emission `i` adds at most two leaders: its branch target and its successor. */
  lemma LeaderStep(p: Program, i: nat, target: Option<nat>, leaders: seq<bool>, leaders': seq<bool>)
    requires i < |p.emissions| == |leaders| == |leaders'|
    requires BranchAt(p, i) ==> target.Some? && Target(p, i) == target
    requires !BranchAt(p, i) ==> target == None
    requires forall j :: 0 <= j < |leaders| ==> (leaders[j] <==> LeaderWithin(p, j, i))
    requires forall j :: 0 <= j < |leaders| ==>
               (leaders'[j] <==> leaders[j] || (ControlAt(p, i) && j == i + 1) || target == Some(j))
    ensures forall j :: 0 <= j < |leaders| ==> (leaders'[j] <==> LeaderWithin(p, j, i + 1))
  {
    hide FindStart;
    forall j | 0 <= j < |leaders|
      ensures leaders'[j] <==> LeaderWithin(p, j, i + 1)
    {
      assert target == Some(j) <==> JumpsTo(p, i, j);
      if LeaderWithin(p, j, i + 1) && !LeaderWithin(p, j, i) && j != i + 1 {
        var k :| 0 <= k < i + 1 && JumpsTo(p, k, j);
        assert k == i;
      }
    }
  }

  /** The first loop of the builder: resolve every branch and mark every leader. */
  method MarkLeaders(p: Program) returns (r: Result<Marks, CfgError>)
    requires WellTiled(p) && |p.emissions| > 0
    ensures r.Ok? <==> AllBranchesResolve(p)
    ensures r.Ok? ==>
              && |r.value.leaders| == |r.value.targets| == |p.emissions|
              && (forall j :: 0 <= j < |p.emissions| ==> (r.value.leaders[j] <==> IsLeader(p, j)))
              && (forall i :: 0 <= i < |p.emissions| && BranchAt(p, i) ==> r.value.targets[i] == Target(p, i))
    ensures r.Err? ==> BranchErrorAt(p, r.error)
  {
    hide FindStart, LeaderWithin, WellTiled;
    var n := |p.emissions|;
    var leaders := seq(n, _ => false);
    leaders := leaders[0 := true];
    var targets: seq<Option<nat>> := seq(n, _ => None);
    NoLeadersYet(p);
    var i := 0;
    while i < n
      invariant 0 <= i <= n && |leaders| == |targets| == n
      invariant forall k :: 0 <= k < i ==> Resolves(p, k)
      invariant forall j :: 0 <= j < n ==> (leaders[j] <==> LeaderWithin(p, j, i))
      invariant forall k :: 0 <= k < i && BranchAt(p, k) ==> targets[k] == Target(p, k)
      invariant forall k :: i <= k < n ==> targets[k] == None
    {
      var op := p.emissions[i].operation;
      ghost var before := leaders;
      if op.RelativeBranch? || op.ConditionalBranch? {
        var resolved := ResolveBranchTarget(p, i);
        if resolved.Unresolved? {
          assert !Resolves(p, i);
          return Err(CfgError(resolved.code, i, p.emissions[i].source.wordIndex, resolved.targetWord));
        }
        targets := targets[i := Some(resolved.emission)];
        leaders := leaders[resolved.emission := true];
        if i + 1 < n {
          leaders := leaders[i + 1 := true];
        }
      } else if op.EndProgram? && i + 1 < n {
        leaders := leaders[i + 1 := true];
      }
      LeaderStep(p, i, targets[i], before, leaders);
      i := i + 1;
    }
    return Ok(Marks(leaders, targets));
  }

  lemma NoLeadersYet(p: Program)
    ensures forall j :: LeaderWithin(p, j, 0) <==> j == 0
  {
  }

  method CollectStarts(leaders: seq<bool>) returns (starts: seq<nat>)
    ensures Increasing(starts, |leaders|)
    ensures forall j :: 0 <= j < |leaders| ==> (leaders[j] <==> j in starts)
  {
    starts := [];
    var i := 0;
    while i < |leaders|
      invariant 0 <= i <= |leaders|
      invariant Increasing(starts, i)
      invariant forall j :: 0 <= j < i ==> (leaders[j] <==> j in starts)
    {
      if leaders[i] {
        starts := starts + [i];
      }
      i := i + 1;
    }
  }

  lemma StartsCut(p: Program, leaders: seq<bool>, starts: seq<nat>)
    requires |leaders| == |p.emissions| > 0
    requires forall j :: 0 <= j < |p.emissions| ==> (leaders[j] <==> IsLeader(p, j))
    requires Increasing(starts, |leaders|)
    requires forall j :: 0 <= j < |leaders| ==> (leaders[j] <==> j in starts)
    ensures CutsAtLeaders(p, starts)
  {
    hide IsLeader;
    assert leaders[0] by { FirstIsLeader(p); }
    assert 0 in starts;
    assert starts[0] == 0;
  }

  lemma FirstIsLeader(p: Program)
    requires |p.emissions| > 0
    ensures IsLeader(p, 0)
  {
  }

  // ----- blocks -----

  /** Emission `e` lies in block `b`. */
  predicate InBlock(firsts: seq<nat>, n: nat, b: nat, e: int) {
    b < |firsts| && firsts[b] <= e < EndOf(firsts, b, n)
  }

  lemma BlockBounds(firsts: seq<nat>, n: nat, b: nat)
    requires Increasing(firsts, n) && b < |firsts|
    ensures firsts[b] < EndOf(firsts, b, n) <= n
    ensures forall a :: 0 <= a < b ==> EndOf(firsts, a, n) <= firsts[b]
  {
  }

  /** The block index of every emission. */
  ghost predicate MapsToBlocks(firsts: seq<nat>, n: nat, toBlock: seq<nat>, upTo: nat) {
    |toBlock| == n && forall b, e :: 0 <= b < upTo && InBlock(firsts, n, b, e) ==> e < n && toBlock[e] == b
  }

  function BareBlock(firsts: seq<nat>, n: nat, b: nat): (r: Block)
    requires Increasing(firsts, n) && b < |firsts|
  {
    Block(firsts[b], EndOf(firsts, b, n) - firsts[b], [])
  }

  method CutBlocks(firsts: seq<nat>, n: nat) returns (blocks: seq<Block>, toBlock: seq<nat>)
    requires Increasing(firsts, n)
    ensures |blocks| == |firsts|
    ensures forall b :: 0 <= b < |firsts| ==> blocks[b] == BareBlock(firsts, n, b)
    ensures MapsToBlocks(firsts, n, toBlock, |firsts|)
  {
    blocks := [];
    toBlock := seq(n, _ => 0);
    var b := 0;
    while b < |firsts|
      invariant 0 <= b <= |firsts| && |blocks| == b
      invariant forall k :: 0 <= k < b ==> blocks[k] == BareBlock(firsts, n, k)
      invariant MapsToBlocks(firsts, n, toBlock, b)
    {
      var first := firsts[b];
      var end := if b + 1 < |firsts| then firsts[b + 1] else n;
      BlockBounds(firsts, n, b);
      ghost var before := toBlock;
      var e := first;
      while e < end
        invariant first <= e <= end && |toBlock| == n
        invariant forall x :: 0 <= x < first ==> toBlock[x] == before[x]
        invariant forall x :: first <= x < e ==> toBlock[x] == b
      {
        toBlock := toBlock[e := b];
        e := e + 1;
      }
      blocks := blocks + [Block(first, end - first, [])];
      b := b + 1;
    }
  }

  lemma NextBlock(firsts: seq<nat>, n: nat, b: nat, toBlock: seq<nat>)
    requires Increasing(firsts, n) && b < |firsts| && EndOf(firsts, b, n) < n
    requires MapsToBlocks(firsts, n, toBlock, |firsts|)
    ensures toBlock[EndOf(firsts, b, n)] == b + 1
  {
    BlockBounds(firsts, n, b + 1);
    assert InBlock(firsts, n, b + 1, EndOf(firsts, b, n));
  }

  lemma BranchLands(p: Program, firsts: seq<nat>, i: nat, toBlock: seq<nat>)
    requires BranchAt(p, i) && Target(p, i).Some?
    requires CutsAtLeaders(p, firsts)
    requires MapsToBlocks(firsts, |p.emissions|, toBlock, |firsts|)
    ensures var t := toBlock[Target(p, i).value];
            t < |firsts| && firsts[t] == Target(p, i).value
  {
    var e := Target(p, i).value;
    assert JumpsTo(p, i, e);
    assert IsLeader(p, e);
    var t :| 0 <= t < |firsts| && firsts[t] == e;
    BlockBounds(firsts, |p.emissions|, t);
    assert InBlock(firsts, |p.emissions|, t, e);
  }

  /** The edges of one block, as the last loop of the builder computes them. */
  method LinkBlock(p: Program, firsts: seq<nat>, targets: seq<Option<nat>>, toBlock: seq<nat>, b: nat, last: nat)
    returns (successors: seq<Edge>)
    requires AllBranchesResolve(p) && CutsAtLeaders(p, firsts)
    requires |targets| == |p.emissions| && MapsToBlocks(firsts, |p.emissions|, toBlock, |firsts|)
    requires forall i :: 0 <= i < |p.emissions| && BranchAt(p, i) ==> targets[i] == Target(p, i)
    requires b < |firsts| && last + 1 == EndOf(firsts, b, |p.emissions|) <= |p.emissions|
    ensures EdgesOf(p, firsts, b, successors)
  {
    hide IsLeader, MapsToBlocks, FindStart;
    var n := |p.emissions|;
    var op := p.emissions[last].operation;
    successors := [];
    if op.RelativeBranch? || op.ConditionalBranch? {
      assert Resolves(p, last);
      BranchLands(p, firsts, last, toBlock);
      ToBlockLength(firsts, n, toBlock);
      var kind := if op.RelativeBranch? then UnconditionalBranch else BranchTaken;
      successors := [Edge(kind, toBlock[targets[last].value])];
      if op.ConditionalBranch? && last + 1 < n {
        NextBlock(firsts, n, b, toBlock);
        successors := successors + [Edge(BranchFallthrough, toBlock[last + 1])];
      }
    } else if !op.EndProgram? && last + 1 < n {
      NextBlock(firsts, n, b, toBlock);
      ToBlockLength(firsts, n, toBlock);
      successors := [Edge(LinearFallthrough, toBlock[last + 1])];
    }
  }

  lemma ToBlockLength(firsts: seq<nat>, n: nat, toBlock: seq<nat>)
    requires MapsToBlocks(firsts, n, toBlock, |firsts|)
    ensures |toBlock| == n
  {
  }

  method LinkBlocks(p: Program, firsts: seq<nat>, targets: seq<Option<nat>>, cut: seq<Block>, toBlock: seq<nat>)
    returns (blocks: seq<Block>)
    requires AllBranchesResolve(p) && CutsAtLeaders(p, firsts)
    requires |targets| == |p.emissions| && MapsToBlocks(firsts, |p.emissions|, toBlock, |firsts|)
    requires forall i :: 0 <= i < |p.emissions| && BranchAt(p, i) ==> targets[i] == Target(p, i)
    requires |cut| == |firsts|
    requires forall b :: 0 <= b < |cut| ==> cut[b] == BareBlock(firsts, |p.emissions|, b)
    ensures Firsts(blocks) == firsts
    ensures forall b :: 0 <= b < |blocks| ==> BlockOk(p, blocks, b)
  {
    hide IsLeader, MapsToBlocks, FindStart, EdgesOf;
    var n := |p.emissions|;
    blocks := cut;
    var b := 0;
    while b < |blocks|
      invariant 0 <= b <= |blocks| == |cut|
      invariant forall k :: b <= k < |cut| ==> blocks[k] == cut[k]
      invariant forall k :: 0 <= k < b ==>
                  && 0 < EndOf(firsts, k, n) <= n
                  && blocks[k] == cut[k].(successors := blocks[k].successors)
                  && EdgesOf(p, firsts, k, blocks[k].successors)
    {
      BlockBounds(firsts, n, b);
      var last := blocks[b].first + blocks[b].count - 1;
      var successors := LinkBlock(p, firsts, targets, toBlock, b, last);
      blocks := blocks[b := Block(blocks[b].first, blocks[b].count, successors)];
      b := b + 1;
    }
    assert Firsts(blocks) == firsts;
    forall k | 0 <= k < |blocks|
      ensures BlockOk(p, blocks, k)
    {
      BlockBounds(firsts, n, k);
    }
  }

  /** `build_shader_control_flow_graph`: it succeeds exactly on tiled programs whose branches all
      resolve, and then returns their graph; otherwise it names the first thing wrong. */
  method BuildControlFlowGraph(p: Program) returns (r: Result<Graph, CfgError>)
    ensures r.Ok? <==> WellTiled(p) && AllBranchesResolve(p)
    ensures r.Ok? ==> IsGraphOf(p, r.value)
    ensures r.Err? && !WellTiled(p) ==> LayoutErrorAt(p, r.error)
    ensures r.Err? && WellTiled(p) ==> BranchErrorAt(p, r.error)
  {
    var layout := ValidateProgramLayout(p);
    if layout.Some? {
      return Err(layout.value);
    }
    var n := |p.emissions|;
    if n == 0 {
      return Ok(Graph(p.sourceWordCount, 0, []));
    }
    var marked := MarkLeaders(p);
    if marked.Err? {
      return Err(marked.error);
    }
    var starts := CollectStarts(marked.value.leaders);
    StartsCut(p, marked.value.leaders, starts);
    var cut, toBlock := CutBlocks(starts, n);
    var blocks := LinkBlocks(p, starts, marked.value.targets, cut, toBlock);
    return Ok(Graph(p.sourceWordCount, n, blocks));
  }

  // ----- consequences -----

  /** A control operation is never inside a block: it can only be the last emission. */
  lemma NoInteriorControl(p: Program, g: Graph, b: nat, e: nat)
    requires IsGraphOf(p, g) && b < |g.blocks|
    requires g.blocks[b].first <= e < g.blocks[b].first + g.blocks[b].count - 1
    ensures e < |p.emissions| && !IsControl(p.emissions[e].operation)
  {
    assert BlockOk(p, g.blocks, b);
    var firsts := Firsts(g.blocks);
    NoInteriorLeader(p, firsts, b, e + 1);
  }

  /** Between two block starts there is no leader. */
  lemma NoInteriorLeader(p: Program, firsts: seq<nat>, b: nat, j: nat)
    requires CutsAtLeaders(p, firsts) && b < |firsts|
    requires firsts[b] < j < EndOf(firsts, b, |p.emissions|)
    ensures !IsLeader(p, j)
  {
    hide IsLeader;
    if j in firsts {
      var t :| 0 <= t < |firsts| && firsts[t] == j;
    }
  }

  /** Every emission lies in exactly one block. */
  lemma BlocksPartition(p: Program, g: Graph, e: nat)
    requires IsGraphOf(p, g) && e < |p.emissions|
    ensures exists b :: 0 <= b < |g.blocks| && InBlock(Firsts(g.blocks), |p.emissions|, b, e)
    ensures forall a, b ::
              InBlock(Firsts(g.blocks), |p.emissions|, a, e) && InBlock(Firsts(g.blocks), |p.emissions|, b, e) ==>
                a == b
  {
    var firsts, n := Firsts(g.blocks), |p.emissions|;
    BlockContaining(firsts, n, e, 0);
    forall a: nat, b: nat | InBlock(firsts, n, a, e) && InBlock(firsts, n, b, e)
      ensures a == b
    {
      BlockBounds(firsts, n, a);
      BlockBounds(firsts, n, b);
    }
  }

  lemma {:induction false} BlockContaining(firsts: seq<nat>, n: nat, e: nat, b: nat)
    requires Increasing(firsts, n) && b < |firsts| && firsts[b] <= e < n
    ensures exists c :: b <= c < |firsts| && InBlock(firsts, n, c, e)
    decreases |firsts| - b
  {
    if e < EndOf(firsts, b, n) {
      assert InBlock(firsts, n, b, e);
    } else {
      BlockContaining(firsts, n, e, b + 1);
    }
  }

  /** For a lowered stream the only way to be refused is a branch whose destination, the next word
      plus the immediate, is not the start of an instruction; no displacement is ever misaligned. */
  lemma LoweredStreamGraph(words: seq<u32>, p: Program, i: nat)
    requires IsLoweringOf(words, p) && BranchAt(p, i)
    ensures Resolves(p, i) <==>
            exists j :: 0 <= j < |p.emissions|
                        && p.emissions[j].source.wordIndex
                        == p.emissions[i].source.wordIndex + 1
                           + Rdna2.Simm16(words[p.emissions[i].source.wordIndex])
  {
    assert LoweredFrom(words, p.emissions[i]);
    LoweredBranchDelta(words, p.emissions[i]);
    var target := FindStart(p.emissions, TargetWord(p, i));
    if target.Some? {
      assert p.emissions[target.value].source.wordIndex == TargetWord(p, i);
    }
  }
}
