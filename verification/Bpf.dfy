/** Classic BPF as the seccomp filter uses it: word loads from the system-call record, three
    conditional jumps and return. */
module Bpf {
  import opened Machine

  const LD_W_ABS: u16 := 0x20
  const JMP_JGT_K: u16 := 0x25
  const JMP_JEQ_K: u16 := 0x15
  const JMP_JGE_K: u16 := 0x35
  const RET_K: u16 := 0x06

  /** `sock_filter`. Jump displacements count instructions after the next one. */
  datatype Insn = Insn(code: u16, jt: byte, jf: byte, k: u32)

  /** `seccomp_data`. */
  datatype SyscallData = SyscallData(nr: u32, arch: u32, ip: u64, args: seq<u64>)

  const NR_OFFSET: u32 := 0
  const ARCH_OFFSET: u32 := 4
  const IP_LOW_OFFSET: u32 := 8
  const IP_HIGH_OFFSET: u32 := 12

  /** A little-endian word of the record; None where the record has no such word. */
  function LoadWord(d: SyscallData, offset: u32): (r: Option<u32>) {
    if offset == NR_OFFSET then Some(d.nr)
    else if offset == ARCH_OFFSET then Some(d.arch)
    else if offset == IP_LOW_OFFSET then Some(d.ip % TWO32)
    else if offset == IP_HIGH_OFFSET then Some(d.ip / TWO32)
    else if offset >= 16 && offset % 4 == 0 && (offset - 16) / 8 < |d.args| then
      var arg := d.args[(offset - 16) / 8];
      Some(if offset % 8 == 0 then arg % TWO32 else arg / TWO32)
    else None
  }

  predicate IsJump(i: Insn) {
    i.code == JMP_JGT_K || i.code == JMP_JEQ_K || i.code == JMP_JGE_K
  }

  predicate Taken(i: Insn, acc: u32) {
    if i.code == JMP_JGT_K then acc > i.k
    else if i.code == JMP_JEQ_K then acc == i.k
    else acc >= i.k
  }

  /** The verdict of the program from instruction `pc`; None if it runs off the end, meets an
      unknown instruction or loads outside the record. */
  function Run(program: seq<Insn>, pc: nat, acc: u32, d: SyscallData): (r: Option<u32>)
    decreases |program| - pc
  {
    if pc >= |program| then None
    else
      var i := program[pc];
      if i.code == RET_K then Some(i.k)
      else if i.code == LD_W_ABS then
        var w := LoadWord(d, i.k);
        if w.None? then None else Run(program, pc + 1, w.value, d)
      else if IsJump(i) then
        Run(program, pc + 1 + (if Taken(i, acc) then i.jt else i.jf), acc, d)
      else None
  }

  /** What the kernel's checker demands of every instruction: jumps stay inside the program, and
      control cannot run off the end. */
  predicate InsnSafe(program: seq<Insn>, pc: nat)
    requires pc < |program|
  {
    var i := program[pc];
    if i.code == RET_K then true
    else if IsJump(i) then pc + 1 + i.jt < |program| && pc + 1 + i.jf < |program|
    else i.code == LD_W_ABS && i.k in {NR_OFFSET, ARCH_OFFSET, IP_LOW_OFFSET, IP_HIGH_OFFSET} && pc + 1 < |program|
  }

  predicate Safe(program: seq<Insn>) {
    |program| > 0 && forall pc :: 0 <= pc < |program| ==> InsnSafe(program, pc)
  }

  /** A safe program always reaches a verdict. */
  lemma {:induction false} SafeProgramsDecide(program: seq<Insn>, pc: nat, acc: u32, d: SyscallData)
    requires Safe(program) && pc < |program|
    ensures Run(program, pc, acc, d).Some?
    decreases |program| - pc
  {
    assert InsnSafe(program, pc);
    var i := program[pc];
    if i.code == LD_W_ABS {
      SafeProgramsDecide(program, pc + 1, LoadWord(d, i.k).value, d);
    } else if IsJump(i) {
      SafeProgramsDecide(program, pc + 1 + (if Taken(i, acc) then i.jt else i.jf), acc, d);
    }
  }

  /** Jumps are relative, so a program means the same after any prefix. */
  lemma {:induction false} RunAfterPrefix(prefix: seq<Insn>, program: seq<Insn>, pc: nat, acc: u32, d: SyscallData)
    ensures Run(prefix + program, |prefix| + pc, acc, d) == Run(program, pc, acc, d)
    decreases |program| - pc
  {
    if pc < |program| {
      var i := program[pc];
      if i.code == LD_W_ABS && LoadWord(d, i.k).Some? {
        RunAfterPrefix(prefix, program, pc + 1, LoadWord(d, i.k).value, d);
      } else if IsJump(i) {
        RunAfterPrefix(prefix, program, pc + 1 + (if Taken(i, acc) then i.jt else i.jf), acc, d);
      }
    }
  }
}
