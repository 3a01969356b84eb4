/** Lowering framed packets to graphics operations. */
module PacketIr {
  import opened Machine
  import opened Pm4

  const SET_CONTEXT_REG: nat := 0x69
  const SET_SH_REG: nat := 0x76
  const SET_UCONFIG_REG: nat := 0x79
  const DRAW_INDEX_AUTO: nat := 0x2d
  const NUM_INSTANCES: nat := 0x2f

  /** Every register window is this many words long. */
  const WINDOW: nat := 0x400

  datatype Bank = ShaderBank | ContextBank | UserConfigBank

  datatype Operation =
    | UnsupportedPacket
    | WriteRegisters(bank: Bank, start: nat, values: seq<u32>)
    | SetInstances(count: u32)
    | DrawIndexAuto(indices: u32, initiator: u32)

  datatype LowerError = Malformed | RegisterControlBits | RegisterRange | UnsupportedOpcode

  function OpcodeOf(bank: Bank): (n: nat)
    ensures n == if bank.ShaderBank? then 0x76 else if bank.ContextBank? then 0x69 else 0x79
  {
    match bank
    case ShaderBank => SET_SH_REG
    case ContextBank => SET_CONTEXT_REG
    case UserConfigBank => SET_UCONFIG_REG
  }

  function WordValues(ws: seq<RawWord>): (vs: seq<u32>)
    ensures |vs| == |ws| && forall i :: 0 <= i < |ws| ==> vs[i] == WordValue(ws[i])
  {
    if ws == [] then [] else WordValues(ws[..|ws| - 1]) + [WordValue(ws[|ws| - 1])]
  }

  /** A run of registers that fits its window. */
  predicate InWindow(start: nat, count: nat) {
    start < WINDOW && count <= WINDOW - start
  }

  function LowerRegisters(f: Frame, bank: Bank): (r: Result<Operation, LowerError>)
    ensures r == Err(Malformed) <==> !(0 < f.header.count == |f.words| - 2 && f.header.total == |f.words|)
    ensures r == Err(RegisterControlBits) <==>
            0 < f.header.count == |f.words| - 2 && f.header.total == |f.words| && WordValue(f.words[1]) >= 0x1_0000
    ensures r.Ok? <==> && 0 < f.header.count == |f.words| - 2 && f.header.total == |f.words|
                       && WordValue(f.words[1]) < 0x400 && WordValue(f.words[1]) + f.header.count <= 0x400
    ensures r.Ok? ==> && r.value.WriteRegisters? && r.value.bank == bank && InWindow(r.value.start, |r.value.values|)
                      && |f.words| == |r.value.values| + 2 && r.value.start == WordValue(f.words[1])
                      && forall i :: 0 <= i < |r.value.values| ==> r.value.values[i] == WordValue(f.words[i + 2])
  {
    var count := f.header.count;
    if count == 0 || |f.words| != count + 2 || f.header.total != count + 2 then Err(Malformed)
    else
      var control := WordValue(f.words[1]);
      if control / 0x1_0000 != 0 then Err(RegisterControlBits)
      else if !InWindow(control, count) then Err(RegisterRange)
      else Ok(WriteRegisters(bank, control, WordValues(f.words[2..])))
  }

  function LowerDrawControl(f: Frame): (r: Result<Operation, LowerError>)
    ensures f.header.opcode == 0x2f ==>
              && (r.Ok? <==> f.header.count == 0 && f.header.total == 2 == |f.words|)
              && (r.Ok? ==> r.value == SetInstances(WordValue(f.words[1])))
    ensures f.header.opcode == 0x2d ==>
              && (r.Ok? <==> f.header.count == 1 && f.header.total == 3 == |f.words|)
              && (r.Ok? ==> r.value.DrawIndexAuto? && r.value.indices == WordValue(f.words[1])
                            && r.value.initiator == WordValue(f.words[2]))
    ensures r.Err? ==> r.error == Malformed
  {
    if f.header.opcode == NUM_INSTANCES then
      if f.header.count != 0 || f.header.total != 2 || |f.words| != 2 then Err(Malformed)
      else Ok(SetInstances(WordValue(f.words[1])))
    else if f.header.opcode == DRAW_INDEX_AUTO then
      if f.header.count != 1 || f.header.total != 3 || |f.words| != 3 then Err(Malformed)
      else Ok(DrawIndexAuto(WordValue(f.words[1]), WordValue(f.words[2])))
    else Ok(UnsupportedPacket)
  }

  /** The opcodes that a submission may use. */
  predicate IsSupportedOpcode(n: nat) {
    n == SET_SH_REG || n == SET_CONTEXT_REG || n == SET_UCONFIG_REG || n == NUM_INSTANCES || n == DRAW_INDEX_AUTO
  }

  /** The opcode switch of the submission: each packet goes to its own lowering. */
  function Lower(f: Frame): (r: Result<Operation, LowerError>)
    ensures r == Err(UnsupportedOpcode) <==> !IsSupportedOpcode(f.header.opcode)
    ensures r.Ok? ==> !r.value.UnsupportedPacket?
    ensures r.Ok? && r.value.WriteRegisters? ==> f.header.opcode == OpcodeOf(r.value.bank)
    ensures r.Ok? && r.value.SetInstances? ==> f.header.opcode == 0x2f
    ensures r.Ok? && r.value.DrawIndexAuto? ==> f.header.opcode == 0x2d
  {
    if f.header.opcode == SET_SH_REG then LowerRegisters(f, ShaderBank)
    else if f.header.opcode == SET_CONTEXT_REG then LowerRegisters(f, ContextBank)
    else if f.header.opcode == SET_UCONFIG_REG then LowerRegisters(f, UserConfigBank)
    else if f.header.opcode == NUM_INSTANCES || f.header.opcode == DRAW_INDEX_AUTO then LowerDrawControl(f)
    else Err(UnsupportedOpcode)
  }

  method RawWordValue(w: RawWord) returns (v: u32)
    ensures v == WordValue(w)
  {
    Widths();
    v := ReadLittleEndian(w, 0, 4);
    assert w[0..4] == w;
  }

  /** The three register-packet lowerings, which differ in opcode and bank only. A packet with another
      opcode is not an error: it becomes an unsupported operation, which no register file applies. */
  method LowerSetRegister(f: Frame, bank: Bank) returns (r: Result<Operation, LowerError>)
    ensures r == if f.header.opcode == OpcodeOf(bank) then LowerRegisters(f, bank) else Ok(UnsupportedPacket)
  {
    if f.header.opcode != OpcodeOf(bank) {
      return Ok(UnsupportedPacket);
    }
    var count := f.header.count;
    if count == 0 || |f.words| != count + 2 || f.header.total != count + 2 {
      return Err(Malformed);
    }
    var control := RawWordValue(f.words[1]);
    if control / 0x1_0000 != 0 {
      return Err(RegisterControlBits);
    }
    var start := control % 0x1_0000;
    if start >= WINDOW || count > WINDOW - start {
      return Err(RegisterRange);
    }
    var values: seq<u32> := [];
    while |values| < count
      invariant |values| <= count
      invariant forall k :: 0 <= k < |values| ==> values[k] == WordValue(f.words[k + 2])
    {
      var value := RawWordValue(f.words[|values| + 2]);
      values := values + [value];
    }
    assert values == WordValues(f.words[2..]);
    return Ok(WriteRegisters(bank, start, values));
  }
}
