/** Shader IR operations, lowering of one decoded instruction, and the scalar move executor. */
module ShaderIr {
  import opened Machine
  import Rdna2

  const SGPR_COUNT: nat := 106

  datatype BranchCondition = SccZero | SccOne | VccZero | VccNonzero | ExecZero | ExecNonzero
  datatype SpecialSource = VccLo | VccHi | M0 | NullRegister | ExecLo | ExecHi
  datatype ScalarSource =
    | Sgpr(index: byte)
    | Special(kind: SpecialSource)
    | InlineInteger(value: i32)
    | Literal(bits: u32)
  datatype ExportTarget = Mrt(n: byte) | MrtZ | NullTarget | Position(n: byte) | Primitive | Parameter(n: byte)
  datatype UnsupportedReason =
    | UnknownSoppOpcode | UnknownSop1Opcode | UnknownVop1Opcode | UnknownVop2Opcode
    | UnknownExportTarget | UnsupportedScalarOperand | UnsupportedVectorOperand | UnsupportedEncoding
    | InvalidDecodedInstruction

  datatype Operation =
    | Nop(repeatCount: byte)
    | EndProgram
    | RelativeBranch(byteDelta: i32)
    | ConditionalBranch(condition: BranchCondition, byteDelta: i32)
    | WorkgroupBarrier
    | WaitCount(vmcnt: byte, expcnt: byte, lgkmcnt: byte)
    | ScalarMove32(destination: byte, source32: ScalarSource)
    | ScalarMove64(destinationPair: byte, sourcePair: byte)
    | VectorMove32(vdst: byte, vsrc: byte)
    | VectorAddF32(vdst: byte, vsrc0: byte, vsrc1: byte)
    | Export(target: ExportTarget, enableMask: byte, compressed: bool, done: bool, validMask: bool,
             sources: seq<byte>)
    | Unsupported(reason: UnsupportedReason)

  datatype Emission = Emission(operation: Operation, source: Rdna2.Instruction)

  /** The operations that end a basic block. */
  predicate IsControl(op: Operation) {
    op.EndProgram? || op.RelativeBranch? || op.ConditionalBranch?
  }

  predicate IsBranch(op: Operation) {
    op.RelativeBranch? || op.ConditionalBranch?
  }

  // ----- lowering one instruction -----

  function LowerExportTarget(target: byte): (r: Option<ExportTarget>) {
    if target <= 7 then Some(Mrt(target))
    else if target == 8 then Some(MrtZ)
    else if target == 9 then Some(NullTarget)
    else if 0x0c <= target <= 0x0f then Some(Position(target - 0x0c))
    else if target == 0x14 then Some(Primitive)
    else if 0x20 <= target <= 0x3f then Some(Parameter(target - 0x20))
    else None
  }

  function LowerScalarSource(selector: byte, literal: Option<u32>): (r: Option<ScalarSource>) {
    if selector <= 105 then Some(Sgpr(selector))
    else if selector == 106 then Some(Special(VccLo))
    else if selector == 107 then Some(Special(VccHi))
    else if selector == 124 then Some(Special(M0))
    else if selector == 125 then Some(Special(NullRegister))
    else if selector == 126 then Some(Special(ExecLo))
    else if selector == 127 then Some(Special(ExecHi))
    else if 128 <= selector <= 192 then Some(InlineInteger(selector - 128))
    else if 193 <= selector <= 208 then Some(InlineInteger(192 - selector))
    else if selector == 255 && literal.Some? then Some(Literal(literal.value))
    else None
  }

  predicate PlainPair(selector: byte) {
    selector <= 104 && selector % 2 == 0
  }

  /** The branch displacement in bytes from the branch itself; the encoding counts words from the
      following instruction. */
  function BranchDelta(simm16: int): (d: int)
  {
    simm16 * 4 + 4
  }

  function LowerSopp(kind: Rdna2.Kind, simm16: int): (op: Operation)
    requires -0x8000 <= simm16 < 0x8000
  {
    var bits := simm16 % 0x1_0000;
    match kind
    case SNop => Nop(bits % 16 + 1)
    case SEndpgm => EndProgram
    case SBranch => RelativeBranch(BranchDelta(simm16))
    case SCbranchScc0 => ConditionalBranch(SccZero, BranchDelta(simm16))
    case SCbranchScc1 => ConditionalBranch(SccOne, BranchDelta(simm16))
    case SCbranchVccz => ConditionalBranch(VccZero, BranchDelta(simm16))
    case SCbranchVccnz => ConditionalBranch(VccNonzero, BranchDelta(simm16))
    case SCbranchExecz => ConditionalBranch(ExecZero, BranchDelta(simm16))
    case SCbranchExecnz => ConditionalBranch(ExecNonzero, BranchDelta(simm16))
    case SBarrier => WorkgroupBarrier
    case SWaitcnt => WaitCount(bits / 0x4000 % 4 * 16 + bits % 16, bits / 16 % 8, bits / 256 % 64)
    case UnknownSopp => Unsupported(UnknownSoppOpcode)
    case _ => Unsupported(InvalidDecodedInstruction)
  }

  function LowerSop1(kind: Rdna2.Kind, destination: byte, source: byte, literal: Option<u32>): (op: Operation) {
    match kind
    case SMovB32 =>
      var lowered := LowerScalarSource(source, literal);
      if destination <= 105 && lowered.Some? then ScalarMove32(destination, lowered.value)
      else Unsupported(UnsupportedScalarOperand)
    case SMovB64 =>
      if PlainPair(destination) && PlainPair(source) then ScalarMove64(destination, source)
      else Unsupported(UnsupportedScalarOperand)
    case UnknownSop1 => Unsupported(UnknownSop1Opcode)
    case _ => Unsupported(InvalidDecodedInstruction)
  }

  function LowerInstruction(i: Rdna2.Instruction): (op: Operation)
    requires i.fields.Sopp? ==> -0x8000 <= i.fields.simm16 < 0x8000
  {
    match i.fields
    case Sopp(_, simm16) => LowerSopp(i.kind, simm16)
    case Sop1(_, destination, source, literal) => LowerSop1(i.kind, destination, source, literal)
    case Vop1(_, destination, source0, _) =>
      if i.kind == Rdna2.UnknownVop1 then Unsupported(UnknownVop1Opcode)
      else if i.kind != Rdna2.VMovB32 then Unsupported(InvalidDecodedInstruction)
      else if 256 <= source0 <= 511 then VectorMove32(destination, source0 - 256)
      else Unsupported(UnsupportedVectorOperand)
    case Vop2(_, destination, source0, source1, _) =>
      if i.kind == Rdna2.UnknownVop2 then Unsupported(UnknownVop2Opcode)
      else if i.kind != Rdna2.VAddF32 then Unsupported(InvalidDecodedInstruction)
      else if 256 <= source0 <= 511 then VectorAddF32(destination, source0 - 256, source1)
      else Unsupported(UnsupportedVectorOperand)
    case Exp(enableMask, target, compressed, done, validMask, sources) =>
      if i.kind != Rdna2.ExpKind || i.wordCount != 2 then Unsupported(InvalidDecodedInstruction)
      else
        var lowered := LowerExportTarget(target);
        if lowered.None? then Unsupported(UnknownExportTarget)
        else Export(lowered.value, enableMask, compressed, done, validMask, sources)
    case Unclassified =>
      if i.kind == Rdna2.UnsupportedEncoding then Unsupported(UnsupportedEncoding)
      else Unsupported(InvalidDecodedInstruction)
  }

  // ----- scalar state and moves -----

  datatype Scalars = Scalars(sgprs: seq<u32>, vcc: u64, m0: u32, exec: u64, scc: bool)

  type ScalarValue = s: Scalars | |s.sgprs| == SGPR_COUNT
    witness Scalars(seq(SGPR_COUNT, _ => 0), 0, 0, 0, false)

  datatype WriteWidth = Bits32 | Bits64
  datatype Effect = Effect(width: WriteWidth, first: byte, low: u32, high: u32)

  datatype ScalarErrorCode = UnsupportedOperation | InvalidSgprIndex | InvalidSgprPair
  datatype OperandRole = NoRole | SourceRole | DestinationRole
  datatype ScalarError = ScalarError(code: ScalarErrorCode, role: OperandRole, index: nat)

  predicate ValidSgpr(index: byte) {
    index < SGPR_COUNT
  }

  predicate ValidPair(first: byte) {
    first % 2 == 0 && first + 1 < SGPR_COUNT
  }

  function ReadSource(source: ScalarSource, s: ScalarValue): (r: Result<u32, ScalarError>) {
    match source
    case Sgpr(index) =>
      if ValidSgpr(index) then Ok(s.sgprs[index]) else Err(ScalarError(InvalidSgprIndex, SourceRole, index))
    case Special(kind) =>
      Ok(match kind
         case VccLo => s.vcc % TWO32
         case VccHi => s.vcc / TWO32
         case M0 => s.m0
         case NullRegister => 0
         case ExecLo => s.exec % TWO32
         case ExecHi => s.exec / TWO32)
    case InlineInteger(value) => Ok(value % TWO32)
    case Literal(bits) => Ok(bits)
  }

  predicate IsMove(op: Operation) {
    op.ScalarMove32? || op.ScalarMove64?
  }

  /** What one scalar move does to a register file, as a value. */
  function MoveResult(op: Operation, s: ScalarValue): (r: Result<(ScalarValue, Effect), ScalarError>) {
    match op
    case ScalarMove32(destination, source) =>
      if !ValidSgpr(destination) then Err(ScalarError(InvalidSgprIndex, DestinationRole, destination))
      else
        var value := ReadSource(source, s);
        if value.Err? then Err(value.error)
        else Ok((s.(sgprs := s.sgprs[destination := value.value]), Effect(Bits32, destination, value.value, 0)))
    case ScalarMove64(destination, source) =>
      if !ValidPair(destination) then Err(ScalarError(InvalidSgprPair, DestinationRole, destination))
      else if !ValidPair(source) then Err(ScalarError(InvalidSgprPair, SourceRole, source))
      else
        var low, high := s.sgprs[source], s.sgprs[source + 1];
        Ok((s.(sgprs := s.sgprs[destination := low][destination + 1 := high]),
            Effect(Bits64, destination, low, high)))
    case _ => Err(ScalarError(UnsupportedOperation, NoRole, 0))
  }

  /** The registers named by an effect. */
  predicate Writes(e: Effect, r: int) {
    r == e.first || (e.width == Bits64 && r == e.first + 1)
  }

  /** The reported effect is the whole story: it gives the new value of every register that the move
      wrote, and nothing else in the state changed. */
  lemma MoveChangesOnlyItsEffect(op: Operation, s: ScalarValue)
    requires MoveResult(op, s).Ok?
    ensures var (s', e) := MoveResult(op, s).value;
            && s' == s.(sgprs := s'.sgprs)
            && (forall r :: 0 <= r < SGPR_COUNT && !Writes(e, r) ==> s'.sgprs[r] == s.sgprs[r])
            && e.first < SGPR_COUNT && s'.sgprs[e.first] == e.low
            && (e.width == Bits64 ==> e.first + 1 < SGPR_COUNT && s'.sgprs[e.first + 1] == e.high)
  {
  }

  /** Which moves are refused, and over which operand; registers run from 0 to 105, pairs are even. */
  lemma MoveRefusals(op: Operation, s: ScalarValue)
    ensures op.ScalarMove32? ==>
              (MoveResult(op, s).Err? <==> op.destination > 105 || (op.source32.Sgpr? && op.source32.index > 105))
    ensures op.ScalarMove32? && MoveResult(op, s).Err? ==>
              MoveResult(op, s).error == if op.destination > 105
                                         then ScalarError(InvalidSgprIndex, DestinationRole, op.destination)
                                         else ScalarError(InvalidSgprIndex, SourceRole, op.source32.index)
    ensures op.ScalarMove64? ==>
              (MoveResult(op, s).Err? <==>
               op.destinationPair > 104 || op.destinationPair % 2 != 0 || op.sourcePair > 104 || op.sourcePair % 2 != 0)
    ensures op.ScalarMove64? && MoveResult(op, s).Err? ==>
              MoveResult(op, s).error == if op.destinationPair > 104 || op.destinationPair % 2 != 0
                                         then ScalarError(InvalidSgprPair, DestinationRole, op.destinationPair)
                                         else ScalarError(InvalidSgprPair, SourceRole, op.sourcePair)
    ensures !IsMove(op) ==> MoveResult(op, s) == Err(ScalarError(UnsupportedOperation, NoRole, 0))
  {
  }

  class ScalarState {
    var sgprs: seq<u32>
    var vcc: u64
    var m0: u32
    var exec: u64
    var scc: bool

    ghost predicate Valid()
      reads this
    {
      |sgprs| == SGPR_COUNT
    }

    function Value(): (s: ScalarValue)
      requires Valid()
      reads this
    {
      Scalars(sgprs, vcc, m0, exec, scc)
    }

    constructor (s: ScalarValue)
      ensures Valid() && Value() == s
    {
      sgprs, vcc, m0, exec, scc := s.sgprs, s.vcc, s.m0, s.exec, s.scc;
    }
  }

  /** `execute_shader_scalar_operation`: a failing move leaves the state untouched. */
  method ExecuteScalarOperation(op: Operation, state: ScalarState) returns (r: Result<Effect, ScalarError>)
    requires state.Valid()
    modifies state
    ensures state.Valid()
    ensures r.Ok? <==> MoveResult(op, old(state.Value())).Ok?
    ensures r.Ok? ==> (state.Value(), r.value) == MoveResult(op, old(state.Value())).value
    ensures r.Err? ==> r.error == MoveResult(op, old(state.Value())).error && state.Value() == old(state.Value())
  {
    if op.ScalarMove32? {
      if !ValidSgpr(op.destination) {
        return Err(ScalarError(InvalidSgprIndex, DestinationRole, op.destination));
      }
      var source := ReadSource(op.source32, state.Value());
      if source.Err? {
        return Err(source.error);
      }
      state.sgprs := state.sgprs[op.destination := source.value];
      return Ok(Effect(Bits32, op.destination, source.value, 0));
    }
    if op.ScalarMove64? {
      if !ValidPair(op.destinationPair) {
        return Err(ScalarError(InvalidSgprPair, DestinationRole, op.destinationPair));
      }
      if !ValidPair(op.sourcePair) {
        return Err(ScalarError(InvalidSgprPair, SourceRole, op.sourcePair));
      }
      var low, high := state.sgprs[op.sourcePair], state.sgprs[op.sourcePair + 1];
      state.sgprs := state.sgprs[op.destinationPair := low];
      state.sgprs := state.sgprs[op.destinationPair + 1 := high];
      return Ok(Effect(Bits64, op.destinationPair, low, high));
    }
    return Err(ScalarError(UnsupportedOperation, NoRole, 0));
  }
}
