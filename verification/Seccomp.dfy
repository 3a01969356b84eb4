/** The seccomp filter generator: it compiles a list of guest address ranges and a fixed host policy
    into classic BPF with hand-computed jump displacements. */
module Seccomp {
  import opened Machine
  import opened GuestRanges
  import opened Bpf

  const RET_TRAP: u32 := 0x0003_0000
  const RET_REFUSE: u32 := 0x0005_0001  // SECCOMP_RET_ERRNO | EPERM
  const RET_ALLOW: u32 := 0x7fff_0000
  const AUDIT_ARCH_X86_64: u32 := 0xC000_003E
  const AUDIT_ARCH_I386: u32 := 0x4000_0003
  const X32_SYSCALL_BIT: u32 := 0x4000_0000

  /** open, openat, openat2, creat, socket, socketpair, connect, bind, listen, accept, accept4,
      execve, execveat, ptrace by their x86-64 numbers. */
  const DENIED: seq<u32> := [2, 257, 437, 85, 41, 53, 42, 49, 50, 43, 288, 59, 322, 101]

  const INSNS_PER_RANGE := 11
  const MAX_PROGRAM := 65535

  /** Three guards of three instructions, the final allow, and two instructions per refused number;
      38 for `DENIED`. */
  function TrailingInsns(denied: seq<u32>): (n: nat) {
    10 + 2 * |denied|
  }

  predicate Fits(rangeCount: nat, denied: seq<u32>) {
    INSNS_PER_RANGE * rangeCount + TrailingInsns(denied) <= MAX_PROGRAM
  }

  datatype SignalRange = SignalRange(base: u64, size: u64)

  datatype SetupError = SetupError(address: Option<u64>, tooBig: bool)

  // ----- the policy, without any program in sight -----

  predicate InRange(r: SignalRange, ip: u64) {
    r.base <= ip < r.base + r.size
  }

  ghost predicate InSomeRange(ranges: seq<SignalRange>, ip: u64) {
    exists k :: 0 <= k < |ranges| && InRange(ranges[k], ip)
  }

  function HostPolicy(denied: seq<u32>, d: SyscallData): (verdict: u32) {
    if d.arch != AUDIT_ARCH_X86_64 then RET_REFUSE
    else if d.nr >= X32_SYSCALL_BIT then RET_REFUSE
    else if 512 <= d.nr < 548 then RET_REFUSE
    else if d.nr in denied then RET_REFUSE
    else RET_ALLOW
  }

  ghost function Policy(ranges: seq<SignalRange>, denied: seq<u32>, d: SyscallData): (verdict: u32) {
    if InSomeRange(ranges, d.ip) then RET_TRAP else HostPolicy(denied, d)
  }

  // ----- the emitted program -----

  predicate RangeOk(r: SignalRange) {
    r.size > 0 && r.base + r.size <= TWO64
  }

  /** Eleven instructions that trap when the instruction pointer is in the range and otherwise jump
      to the instruction after the block. The 64-bit bounds are compared high word first. */
  function RangeBlock(r: SignalRange): (block: seq<Insn>)
    requires RangeOk(r)
    ensures |block| == INSNS_PER_RANGE
  {
    var last := r.base + r.size - 1;
    [ Insn(LD_W_ABS, 0, 0, IP_HIGH_OFFSET),
      Insn(JMP_JGT_K, 3, 0, r.base / TWO32),
      Insn(JMP_JEQ_K, 0, 8, r.base / TWO32),
      Insn(LD_W_ABS, 0, 0, IP_LOW_OFFSET),
      Insn(JMP_JGE_K, 0, 6, r.base % TWO32),
      Insn(LD_W_ABS, 0, 0, IP_HIGH_OFFSET),
      Insn(JMP_JGT_K, 4, 0, last / TWO32),
      Insn(JMP_JEQ_K, 0, 2, last / TWO32),
      Insn(LD_W_ABS, 0, 0, IP_LOW_OFFSET),
      Insn(JMP_JGT_K, 1, 0, last % TWO32),
      Insn(RET_K, 0, 0, RET_TRAP) ]
  }

  function RangeBlocks(ranges: seq<SignalRange>): (blocks: seq<Insn>)
    requires forall k :: 0 <= k < |ranges| ==> RangeOk(ranges[k])
    ensures |blocks| == INSNS_PER_RANGE * |ranges|
  {
    if ranges == [] then [] else RangeBlock(ranges[0]) + RangeBlocks(ranges[1..])
  }

  function HostGuards(): (guards: seq<Insn>)
    ensures |guards| == 9
  {
    [ Insn(LD_W_ABS, 0, 0, ARCH_OFFSET),
      Insn(JMP_JEQ_K, 1, 0, AUDIT_ARCH_X86_64),
      Insn(RET_K, 0, 0, RET_REFUSE),
      Insn(LD_W_ABS, 0, 0, NR_OFFSET),
      Insn(JMP_JGE_K, 0, 1, X32_SYSCALL_BIT),
      Insn(RET_K, 0, 0, RET_REFUSE),
      Insn(JMP_JGE_K, 0, 2, 512),
      Insn(JMP_JGE_K, 1, 0, 548),
      Insn(RET_K, 0, 0, RET_REFUSE) ]
  }

  function DenyList(numbers: seq<u32>): (r: seq<Insn>)
    ensures |r| == 2 * |numbers|
  {
    if numbers == [] then []
    else [Insn(JMP_JEQ_K, 0, 1, numbers[0]), Insn(RET_K, 0, 0, RET_REFUSE)] + DenyList(numbers[1..])
  }

  function Trailer(denied: seq<u32>): (r: seq<Insn>)
    ensures |r| == TrailingInsns(denied)
  {
    HostGuards() + (DenyList(denied) + [Insn(RET_K, 0, 0, RET_ALLOW)])
  }

  function FilterFor(ranges: seq<SignalRange>, denied: seq<u32>): (program: seq<Insn>)
    requires forall k :: 0 <= k < |ranges| ==> RangeOk(ranges[k])
    ensures |program| == INSNS_PER_RANGE * |ranges| + TrailingInsns(denied)
  {
    RangeBlocks(ranges) + Trailer(denied)
  }

  lemma {:induction false} RangeBlocksAppend(ranges: seq<SignalRange>, r: SignalRange)
    requires (forall k :: 0 <= k < |ranges| ==> RangeOk(ranges[k])) && RangeOk(r)
    ensures RangeBlocks(ranges + [r]) == RangeBlocks(ranges) + RangeBlock(r)
  {
    if ranges == [] {
      assert RangeBlocks([r]) == RangeBlock(r) + RangeBlocks([r][1..]);
    } else {
      assert (ranges + [r])[1..] == ranges[1..] + [r];
      RangeBlocksAppend(ranges[1..], r);
    }
  }

  lemma {:induction false} DenyListAppend(numbers: seq<u32>, n: u32)
    ensures DenyList(numbers + [n]) == DenyList(numbers) + [Insn(JMP_JEQ_K, 0, 1, n), Insn(RET_K, 0, 0, RET_REFUSE)]
  {
    if numbers == [] {
      assert DenyList([n]) == [Insn(JMP_JEQ_K, 0, 1, n), Insn(RET_K, 0, 0, RET_REFUSE)] + DenyList([n][1..]);
    } else {
      assert (numbers + [n])[1..] == numbers[1..] + [n];
      DenyListAppend(numbers[1..], n);
    }
  }

  method EmitRange(program: seq<Insn>, range: SignalRange) returns (r: seq<Insn>)
    requires RangeOk(range)
    ensures r == program + RangeBlock(range)
  {
    var last := range.base + (range.size - 1);
    r := program;
    r := r + [Insn(LD_W_ABS, 0, 0, IP_HIGH_OFFSET)];
    r := r + [Insn(JMP_JGT_K, 3, 0, range.base / TWO32)];
    r := r + [Insn(JMP_JEQ_K, 0, 8, range.base / TWO32)];
    r := r + [Insn(LD_W_ABS, 0, 0, IP_LOW_OFFSET)];
    r := r + [Insn(JMP_JGE_K, 0, 6, range.base % TWO32)];
    r := r + [Insn(LD_W_ABS, 0, 0, IP_HIGH_OFFSET)];
    r := r + [Insn(JMP_JGT_K, 4, 0, last / TWO32)];
    r := r + [Insn(JMP_JEQ_K, 0, 2, last / TWO32)];
    r := r + [Insn(LD_W_ABS, 0, 0, IP_LOW_OFFSET)];
    r := r + [Insn(JMP_JGT_K, 1, 0, last % TWO32)];
    r := r + [Insn(RET_K, 0, 0, RET_TRAP)];
  }

  method EmitTrailer(program: seq<Insn>, denied: seq<u32>) returns (r: seq<Insn>)
    ensures r == program + Trailer(denied)
  {
    r := program + HostGuards();
    ghost var guarded := r;
    var j := 0;
    while j < |denied|
      invariant 0 <= j <= |denied|
      invariant r == guarded + DenyList(denied[..j])
    {
      ghost var before := r;
      r := r + [Insn(JMP_JEQ_K, 0, 1, denied[j])];
      r := r + [Insn(RET_K, 0, 0, RET_REFUSE)];
      assert r == before + [Insn(JMP_JEQ_K, 0, 1, denied[j]), Insn(RET_K, 0, 0, RET_REFUSE)];
      assert denied[..j + 1] == denied[..j] + [denied[j]];
      DenyListAppend(denied[..j], denied[j]);
      j := j + 1;
    }
    assert denied[..|denied|] == denied;
    r := r + [Insn(RET_K, 0, 0, RET_ALLOW)];
  }

  /** The emission part of `install_guest_executable_syscall_filter`, which passes `DENIED`. */
  method EmitFilter(ranges: seq<SignalRange>, denied: seq<u32>) returns (r: Result<seq<Insn>, SetupError>)
    requires TrailingInsns(denied) <= MAX_PROGRAM
    ensures r.Ok? <==> |ranges| > 0 && Fits(|ranges|, denied)
                       && forall k :: 0 <= k < |ranges| ==> RangeOk(ranges[k])
    ensures r.Ok? ==> r.value == FilterFor(ranges, denied)
    ensures r.Err? ==>
              if ranges == [] then r.error == SetupError(None, false)
              else if !Fits(|ranges|, denied) then r.error == SetupError(None, true)
              else FirstBadRange(ranges, r.error)
  {
    if |ranges| == 0 {
      return Err(SetupError(None, false));
    }
    if |ranges| > (MAX_PROGRAM - TrailingInsns(denied)) / INSNS_PER_RANGE {
      return Err(SetupError(None, true));
    }
    var program: seq<Insn> := [];
    var i := 0;
    while i < |ranges|
      invariant 0 <= i <= |ranges|
      invariant forall k :: 0 <= k < i ==> RangeOk(ranges[k])
      invariant program == RangeBlocks(ranges[..i])
    {
      var range := ranges[i];
      if range.size == 0 || range.base > U64_MAX - (range.size - 1) {
        return Err(SetupError(Some(range.base), false));
      }
      program := EmitRange(program, range);
      assert ranges[..i + 1] == ranges[..i] + [range];
      RangeBlocksAppend(ranges[..i], range);
      i := i + 1;
    }
    assert ranges[..|ranges|] == ranges;
    program := EmitTrailer(program, denied);
    return Ok(program);
  }

  /** The error names the base of the first range that is empty or leaves the address space. */
  ghost predicate FirstBadRange(ranges: seq<SignalRange>, e: SetupError) {
    exists k :: 0 <= k < |ranges| && e == SetupError(Some(ranges[k].base), false)
                && !RangeOk(ranges[k]) && forall j :: 0 <= j < k ==> RangeOk(ranges[j])
  }

  // ----- what the program means -----

  /** Comparing 64-bit numbers word by word. */
  predicate WordsAtLeast(a: u64, b: u64) {
    a / TWO32 > b / TWO32 || (a / TWO32 == b / TWO32 && a % TWO32 >= b % TWO32)
  }

  lemma WordOrder(a: u64, b: u64)
    ensures WordsAtLeast(a, b) <==> a >= b
  {
    assert a == a / TWO32 * TWO32 + a % TWO32;
    assert b == b / TWO32 * TWO32 + b % TWO32;
  }

  /** The first five instructions: on to the sixth if the pointer is not below the range, otherwise
      out of the block. */
  lemma LowerBoundPart(r: SignalRange, rest: seq<Insn>, acc: u32, d: SyscallData)
    requires RangeOk(r) && |rest| > 0 && rest[0].code == LD_W_ABS
    ensures var program := RangeBlock(r) + rest;
            Run(program, 0, acc, d) == if d.ip >= r.base then Run(program, 5, 0, d) else Run(program, 11, 0, d)
  {
    var program := RangeBlock(r) + rest;
    var high, low := d.ip / TWO32, d.ip % TWO32;
    WordOrder(d.ip, r.base);
    assert Run(program, 0, acc, d) == Run(program, 1, high, d);
    assert forall a: u32, b: u32 :: Run(program, 5, a, d) == Run(program, 5, b, d);
    assert program[11] == rest[0];
    assert forall a: u32, b: u32 :: Run(program, 11, a, d) == Run(program, 11, b, d);
    if high > r.base / TWO32 {
      assert Run(program, 1, high, d) == Run(program, 5, high, d);
    } else {
      assert Run(program, 1, high, d) == Run(program, 2, high, d);
      if high == r.base / TWO32 {
        assert Run(program, 2, high, d) == Run(program, 3, high, d) == Run(program, 4, low, d);
        assert Run(program, 4, low, d) == Run(program, if low >= r.base % TWO32 then 5 else 11, low, d);
      } else {
        assert Run(program, 2, high, d) == Run(program, 11, high, d);
      }
    }
  }

  /** The last six instructions: trap if the pointer is not above the range, otherwise out. */
  lemma UpperBoundPart(r: SignalRange, rest: seq<Insn>, d: SyscallData)
    requires RangeOk(r) && |rest| > 0 && rest[0].code == LD_W_ABS
    ensures var program := RangeBlock(r) + rest;
            Run(program, 5, 0, d) == if d.ip < r.base + r.size then Some(RET_TRAP) else Run(program, 11, 0, d)
  {
    var program := RangeBlock(r) + rest;
    var high, low := d.ip / TWO32, d.ip % TWO32;
    var last := r.base + r.size - 1;
    WordOrder(last, d.ip);
    assert Run(program, 5, 0, d) == Run(program, 6, high, d);
    assert program[11] == rest[0];
    assert forall a: u32, b: u32 :: Run(program, 11, a, d) == Run(program, 11, b, d);
    if high > last / TWO32 {
      assert Run(program, 6, high, d) == Run(program, 11, high, d);
    } else {
      assert Run(program, 6, high, d) == Run(program, 7, high, d);
      if high == last / TWO32 {
        assert Run(program, 7, high, d) == Run(program, 8, high, d) == Run(program, 9, low, d);
        assert Run(program, 9, low, d) == Run(program, if low > last % TWO32 then 11 else 10, low, d);
      } else {
        assert Run(program, 7, high, d) == Run(program, 10, high, d);
      }
    }
  }

  lemma RangeBlockMeaning(r: SignalRange, rest: seq<Insn>, acc: u32, d: SyscallData)
    requires RangeOk(r) && |rest| > 0 && rest[0].code == LD_W_ABS
    ensures Run(RangeBlock(r) + rest, 0, acc, d) == if InRange(r, d.ip) then Some(RET_TRAP) else Run(rest, 0, 0, d)
  {
    hide Run, RangeBlock;
    LowerBoundPart(r, rest, acc, d);
    UpperBoundPart(r, rest, d);
    RunAfterPrefix(RangeBlock(r), rest, 0, 0, d);
  }

  lemma {:induction false} DenyListMeaning(numbers: seq<u32>, d: SyscallData)
    ensures Run(DenyList(numbers) + [Insn(RET_K, 0, 0, RET_ALLOW)], 0, d.nr, d)
         == Some(if d.nr in numbers then RET_REFUSE else RET_ALLOW)
  {
    var allow := [Insn(RET_K, 0, 0, RET_ALLOW)];
    if numbers == [] {
      assert DenyList(numbers) + allow == allow;
    } else {
      var head := [Insn(JMP_JEQ_K, 0, 1, numbers[0]), Insn(RET_K, 0, 0, RET_REFUSE)];
      var rest := DenyList(numbers[1..]) + allow;
      assert DenyList(numbers) + allow == head + rest;
      if d.nr == numbers[0] {
        assert Run(head + rest, 0, d.nr, d) == Run(head + rest, 1, d.nr, d) == Some(RET_REFUSE);
      } else {
        assert Run(head + rest, 0, d.nr, d) == Run(head + rest, 2, d.nr, d);
        RunAfterPrefix(head, rest, 0, d.nr, d);
        DenyListMeaning(numbers[1..], d);
      }
    }
  }

  /** The nine guard instructions in front of any tail. */
  lemma GuardsMeaning(tail: seq<Insn>, acc: u32, d: SyscallData)
    ensures Run(HostGuards() + tail, 0, acc, d)
         == if d.arch != AUDIT_ARCH_X86_64 || d.nr >= X32_SYSCALL_BIT || 512 <= d.nr < 548 then Some(RET_REFUSE)
            else Run(HostGuards() + tail, 9, d.nr, d)
  {
    var program := HostGuards() + tail;
    assert Run(program, 0, acc, d) == Run(program, 1, d.arch, d);
    if d.arch == AUDIT_ARCH_X86_64 {
      assert Run(program, 1, d.arch, d) == Run(program, 3, d.arch, d) == Run(program, 4, d.nr, d);
      if d.nr < X32_SYSCALL_BIT {
        assert Run(program, 4, d.nr, d) == Run(program, 6, d.nr, d);
        if 512 <= d.nr {
          assert Run(program, 6, d.nr, d) == Run(program, 7, d.nr, d);
          assert Run(program, 7, d.nr, d) == Run(program, if 548 <= d.nr then 9 else 8, d.nr, d);
        } else {
          assert Run(program, 6, d.nr, d) == Run(program, 9, d.nr, d);
        }
      } else {
        assert Run(program, 4, d.nr, d) == Run(program, 5, d.nr, d);
      }
    } else {
      assert Run(program, 1, d.arch, d) == Run(program, 2, d.arch, d);
    }
  }

  lemma TrailerMeaning(denied: seq<u32>, acc: u32, d: SyscallData)
    ensures Run(Trailer(denied), 0, acc, d) == Some(HostPolicy(denied, d))
  {
    hide Run, HostGuards, DenyList;
    var tail := DenyList(denied) + [Insn(RET_K, 0, 0, RET_ALLOW)];
    GuardsMeaning(tail, acc, d);
    RunAfterPrefix(HostGuards(), tail, 0, d.nr, d);
    DenyListMeaning(denied, d);
  }

  /** Main theorem: for any list of ranges the emitted program traps exactly the system calls issued
      from inside some range, and gives every other one the host policy. */
  lemma {:induction false} FilterMeansPolicy(ranges: seq<SignalRange>, denied: seq<u32>, acc: u32, d: SyscallData)
    requires forall k :: 0 <= k < |ranges| ==> RangeOk(ranges[k])
    ensures Run(FilterFor(ranges, denied), 0, acc, d) == Some(Policy(ranges, denied, d))
  {
    hide Run, RangeBlock, Trailer, HostPolicy;
    if ranges == [] {
      TrailerMeaning(denied, acc, d);
      assert FilterFor(ranges, denied) == Trailer(denied);
    } else {
      var rest := FilterFor(ranges[1..], denied);
      assert FilterFor(ranges, denied) == RangeBlock(ranges[0]) + rest;
      StartsWithLoad(ranges[1..], denied);
      RangeBlockMeaning(ranges[0], rest, acc, d);
      FilterMeansPolicy(ranges[1..], denied, 0, d);
      if InSomeRange(ranges[1..], d.ip) {
        var k :| 0 <= k < |ranges[1..]| && InRange(ranges[1..][k], d.ip);
        assert InRange(ranges[k + 1], d.ip);
      } else if InSomeRange(ranges, d.ip) {
        var k :| 0 <= k < |ranges| && InRange(ranges[k], d.ip);
        assert k > 0 ==> ranges[1..][k - 1] == ranges[k];
      }
    }
  }

  lemma StartsWithLoad(ranges: seq<SignalRange>, denied: seq<u32>)
    requires forall k :: 0 <= k < |ranges| ==> RangeOk(ranges[k])
    ensures FilterFor(ranges, denied)[0].code == LD_W_ABS
  {
    hide DenyList;
    if ranges == [] {
      assert FilterFor(ranges, denied)[0] == HostGuards()[0];
    } else {
      assert FilterFor(ranges, denied)[0] == RangeBlock(ranges[0])[0];
    }
  }

  // ----- the kernel's checker accepts it -----

  /** The jumps of `part`, placed at `at`, stay inside a program of length `total`. */
  predicate PartSafe(part: seq<Insn>, at: nat, total: nat) {
    forall pc :: 0 <= pc < |part| ==>
      var i := part[pc];
      if i.code == RET_K then true
      else if IsJump(i) then at + pc + 1 + i.jt < total && at + pc + 1 + i.jf < total
      else && i.code == LD_W_ABS && i.k in {NR_OFFSET, ARCH_OFFSET, IP_LOW_OFFSET, IP_HIGH_OFFSET}
           && at + pc + 1 < total
  }

  lemma PartSafeAppend(a: seq<Insn>, b: seq<Insn>, at: nat, total: nat)
    requires PartSafe(a, at, total) && PartSafe(b, at + |a|, total)
    ensures PartSafe(a + b, at, total)
  {
  }

  lemma {:induction false} RangeBlocksSafe(ranges: seq<SignalRange>, at: nat, total: nat)
    requires forall k :: 0 <= k < |ranges| ==> RangeOk(ranges[k])
    requires at + |RangeBlocks(ranges)| < total
    ensures PartSafe(RangeBlocks(ranges), at, total)
  {
    if ranges != [] {
      RangeBlocksSafe(ranges[1..], at + INSNS_PER_RANGE, total);
      assert PartSafe(RangeBlock(ranges[0]), at, total);
      PartSafeAppend(RangeBlock(ranges[0]), RangeBlocks(ranges[1..]), at, total);
    }
  }

  lemma {:induction false} DenyListSafe(numbers: seq<u32>, at: nat, total: nat)
    requires at + |DenyList(numbers)| < total
    ensures PartSafe(DenyList(numbers), at, total)
  {
    if numbers != [] {
      DenyListSafe(numbers[1..], at + 2, total);
    }
  }

  /** Every jump is forward and lands inside the program, every load is inside the record, and the
      length fits the 16-bit program header. */
  lemma FilterIsSafe(ranges: seq<SignalRange>, denied: seq<u32>)
    requires forall k :: 0 <= k < |ranges| ==> RangeOk(ranges[k])
    requires Fits(|ranges|, denied)
    ensures Safe(FilterFor(ranges, denied)) && |FilterFor(ranges, denied)| <= MAX_PROGRAM
  {
    hide DenyList, RangeBlocks, PartSafe, HostGuards;
    var program := FilterFor(ranges, denied);
    var n, total := |RangeBlocks(ranges)|, |program|;
    var allow := [Insn(RET_K, 0, 0, RET_ALLOW)];
    RangeBlocksSafe(ranges, 0, total);
    GuardsSafe(n, total);
    DenyListSafe(denied, n + 9, total);
    AllowSafe(n + 9 + |DenyList(denied)|, total);
    PartSafeAppend(DenyList(denied), allow, n + 9, total);
    PartSafeAppend(HostGuards(), DenyList(denied) + allow, n, total);
    PartSafeAppend(RangeBlocks(ranges), Trailer(denied), 0, total);
    PartSafeIsSafe(program);
  }

  lemma GuardsSafe(at: nat, total: nat)
    requires at + 9 < total
    ensures PartSafe(HostGuards(), at, total)
  {
  }

  lemma AllowSafe(at: nat, total: nat)
    ensures PartSafe([Insn(RET_K, 0, 0, RET_ALLOW)], at, total)
  {
  }

  lemma PartSafeIsSafe(program: seq<Insn>)
    requires |program| > 0 && PartSafe(program, 0, |program|)
    ensures Safe(program)
  {
  }

  // ----- from the guest image to the trapped call site -----

  /** `exact_executable_contains`. */
  ghost predicate ExactExecutable(mappings: seq<MappingIntent>, a: int) {
    exists m :: 0 <= m < |mappings| && mappings[m].permissions.execute && Contains(mappings[m].range, a)
  }

  ghost predicate FromMapping(mappings: seq<MappingIntent>, r: SignalRange) {
    exists m :: 0 <= m < |mappings| && mappings[m].permissions.execute && mappings[m].range.size > 0
                && r == SignalRange(mappings[m].range.base, mappings[m].range.size)
  }

  predicate IsExecutable(m: MappingIntent) {
    m.permissions.execute && m.range.size > 0
  }

  function RangeOf(m: MappingIntent): (r: SignalRange) {
    SignalRange(m.range.base, m.range.size)
  }

  /** The ranges of the non-empty executable mappings, one for each, in the order of the mappings. */
  function ExecutableRanges(mappings: seq<MappingIntent>): (ranges: seq<SignalRange>) {
    if mappings == [] then []
    else
      var m := mappings[|mappings| - 1];
      ExecutableRanges(mappings[..|mappings| - 1]) + (if IsExecutable(m) then [RangeOf(m)] else [])
  }

  lemma {:induction false} ExecutableRangesMembers(mappings: seq<MappingIntent>, r: SignalRange)
    ensures r in ExecutableRanges(mappings) <==> FromMapping(mappings, r)
  {
    if mappings != [] {
      var n := |mappings| - 1;
      ExecutableRangesMembers(mappings[..n], r);
      FromMappingStep(mappings, n, r);
      assert mappings[..n + 1] == mappings;
    }
  }

  /** `build_executable_ranges`. */
  method BuildExecutableRanges(mappings: seq<MappingIntent>) returns (ranges: seq<SignalRange>)
    ensures ranges == ExecutableRanges(mappings)
  {
    ranges := [];
    var i := 0;
    while i < |mappings|
      invariant 0 <= i <= |mappings|
      invariant ranges == ExecutableRanges(mappings[..i])
    {
      assert mappings[..i + 1][..i] == mappings[..i];
      var m := mappings[i];
      if m.permissions.execute && m.range.size != 0 {
        ranges := ranges + [SignalRange(m.range.base, m.range.size)];
      }
      i := i + 1;
    }
    assert mappings[..i] == mappings;
  }

  lemma FromMappingStep(mappings: seq<MappingIntent>, i: nat, r: SignalRange)
    requires i < |mappings|
    ensures FromMapping(mappings[..i + 1], r) <==>
            FromMapping(mappings[..i], r) || (IsExecutable(mappings[i]) && r == RangeOf(mappings[i]))
  {
    var a, b := mappings[..i], mappings[..i + 1];
    assert b[i] == mappings[i];
    if FromMapping(a, r) {
      var m :| 0 <= m < |a| && a[m].permissions.execute && a[m].range.size > 0
               && r == SignalRange(a[m].range.base, a[m].range.size);
      assert b[m] == a[m];
    }
    if FromMapping(b, r) {
      var m :| 0 <= m < |b| && b[m].permissions.execute && b[m].range.size > 0
               && r == SignalRange(b[m].range.base, b[m].range.size);
      assert m < i ==> a[m] == b[m];
    }
  }

  predicate Extendable(r: SignalRange) {
    r.size != U64_MAX && r.base + r.size <= U64_MAX
  }

  /** `build_seccomp_instruction_pointer_ranges`: every range grows by one byte, or the first one that
      cannot is refused. */
  method BuildSeccompRanges(executable: seq<SignalRange>) returns (r: Result<seq<SignalRange>, SetupError>)
    ensures r.Ok? <==> forall k :: 0 <= k < |executable| ==> Extendable(executable[k])
    ensures r.Ok? ==>
              && |r.value| == |executable|
              && forall k :: 0 <= k < |executable| ==>
                   r.value[k] == SignalRange(executable[k].base, executable[k].size + 1)
    ensures r.Err? ==>
              exists k :: 0 <= k < |executable| && r.error == SetupError(Some(executable[k].base), false)
                          && !Extendable(executable[k]) && forall j :: 0 <= j < k ==> Extendable(executable[j])
  {
    var ranges: seq<SignalRange> := [];
    var i := 0;
    while i < |executable|
      invariant 0 <= i <= |executable| && |ranges| == i
      invariant forall k :: 0 <= k < i ==> Extendable(executable[k])
      invariant forall k :: 0 <= k < i ==> ranges[k] == SignalRange(executable[k].base, executable[k].size + 1)
    {
      var e := executable[i];
      if e.size == U64_MAX || e.base > U64_MAX - e.size {
        return Err(SetupError(Some(e.base), false));
      }
      ranges := ranges + [SignalRange(e.base, e.size + 1)];
      i := i + 1;
    }
    return Ok(ranges);
  }

  ghost predicate Envelopes(mappings: seq<MappingIntent>, ranges: seq<SignalRange>) {
    forall r :: FromMapping(mappings, r) ==> Extendable(r) && SignalRange(r.base, r.size + 1) in ranges
  }

  /** A two-byte call site whose both bytes are guest executable is trapped whether the kernel reports
      the site itself or the address after it. */
  lemma CallSitesAreTrapped(mappings: seq<MappingIntent>, ranges: seq<SignalRange>, site: u64,
                            denied: seq<u32>, d: SyscallData)
    requires Envelopes(mappings, ranges)
    requires ExactExecutable(mappings, site) && ExactExecutable(mappings, site + 1)
    requires d.ip == site || d.ip == site + 2
    ensures Policy(ranges, denied, d) == RET_TRAP
  {
    var owner := if d.ip == site then site else site + 1;
    var m :| 0 <= m < |mappings| && mappings[m].permissions.execute && Contains(mappings[m].range, owner);
    var r := SignalRange(mappings[m].range.base, mappings[m].range.size);
    assert FromMapping(mappings, r);
    var k :| 0 <= k < |ranges| && ranges[k] == SignalRange(r.base, r.size + 1);
    assert InRange(ranges[k], d.ip);
  }

  /** One byte more than each executable range: what the filter is built from. */
  ghost predicate Widened(executable: seq<SignalRange>, ranges: seq<SignalRange>) {
    && |ranges| == |executable|
    && forall k :: 0 <= k < |ranges| ==>
         Extendable(executable[k]) && ranges[k] == SignalRange(executable[k].base, executable[k].size + 1)
  }

  lemma WidenedMeansEnvelope(mappings: seq<MappingIntent>, ranges: seq<SignalRange>, ip: u64)
    requires Widened(ExecutableRanges(mappings), ranges)
    ensures Envelopes(mappings, ranges)
    ensures InSomeRange(ranges, ip) <==> TouchesEnvelope(mappings, ip)
  {
    hide ExecutableRanges, FromMapping;
    var executable := ExecutableRanges(mappings);
    forall e
      ensures e in executable <==> FromMapping(mappings, e)
    {
      ExecutableRangesMembers(mappings, e);
    }
    forall e | FromMapping(mappings, e)
      ensures Extendable(e) && SignalRange(e.base, e.size + 1) in ranges
    {
      var k :| 0 <= k < |executable| && executable[k] == e;
      assert ranges[k] == SignalRange(e.base, e.size + 1);
    }
    if InSomeRange(ranges, ip) {
      var k :| 0 <= k < |ranges| && InRange(ranges[k], ip);
      assert executable[k] in executable;
    }
    if TouchesEnvelope(mappings, ip) {
      var e :| FromMapping(mappings, e) && e.base <= ip <= e.base + e.size;
      var k :| 0 <= k < |executable| && executable[k] == e;
      assert InRange(ranges[k], ip);
    }
  }

  /** The range builders and the emitter in the order the backend calls them: there is a filter exactly
      when there is guest code, not in too many pieces, and none of it reaches the last address; the
      filter traps exactly the envelope of guest code and gives everything else the host policy. */
  method PrepareFilter(mappings: seq<MappingIntent>) returns (r: Result<seq<Insn>, SetupError>)
    ensures var executable := ExecutableRanges(mappings);
            r.Ok? <==> 0 < |executable| <= 5954 && forall k :: 0 <= k < |executable| ==> Extendable(executable[k])
    ensures r.Ok? ==> forall d: SyscallData ::
              Run(r.value, 0, 0, d) == Some(if TouchesEnvelope(mappings, d.ip) then RET_TRAP else HostPolicy(DENIED, d))
    ensures r.Ok? ==> forall site: u64, d: SyscallData ::
              ExactExecutable(mappings, site) && ExactExecutable(mappings, site + 1)
              && (d.ip == site || d.ip == site + 2) ==>
                Run(r.value, 0, 0, d) == Some(RET_TRAP)
  {
    hide Run, FilterFor, HostPolicy, ExecutableRanges, TouchesEnvelope, ExactExecutable, Envelopes;
    var executable := BuildExecutableRanges(mappings);
    var built := BuildSeccompRanges(executable);
    if built.Err? {
      return Err(built.error);
    }
    var ranges := built.value;
    assert |DENIED| == 14;
    assert Widened(executable, ranges);
    assert Fits(|ranges|, DENIED) <==> |ranges| <= 5954;
    assert forall k :: 0 <= k < |ranges| ==> RangeOk(ranges[k]);
    r := EmitFilter(ranges, DENIED);
    forall d: SyscallData
      ensures r.Ok? ==>
                Run(r.value, 0, 0, d)
                == Some(if TouchesEnvelope(mappings, d.ip) then RET_TRAP else HostPolicy(DENIED, d))
    {
      WidenedMeansEnvelope(mappings, ranges, d.ip);
      if r.Ok? {
        FilterMeansPolicy(ranges, DENIED, 0, d);
      }
    }
    forall site: u64, d: SyscallData |
      r.Ok? && ExactExecutable(mappings, site) && ExactExecutable(mappings, site + 1)
      && (d.ip == site || d.ip == site + 2)
      ensures Run(r.value, 0, 0, d) == Some(RET_TRAP)
    {
      WidenedMeansEnvelope(mappings, ranges, d.ip);
      CallSitesAreTrapped(mappings, ranges, site, DENIED, d);
      FilterMeansPolicy(ranges, DENIED, 0, d);
    }
  }

  /** The address is in an executable mapping or is the byte just after one. */
  ghost predicate TouchesEnvelope(mappings: seq<MappingIntent>, ip: u64) {
    exists r :: FromMapping(mappings, r) && r.base <= ip <= r.base + r.size
  }

  /** With the shipped list the program has 11 n + 38 instructions, and 5954 ranges is the limit. */
  lemma ShippedFilterSize(ranges: seq<SignalRange>)
    requires forall k :: 0 <= k < |ranges| ==> RangeOk(ranges[k])
    ensures |FilterFor(ranges, DENIED)| == 11 * |ranges| + 38
    ensures Fits(|ranges|, DENIED) <==> |ranges| <= 5954
  {
    hide FilterFor;
    assert |DENIED| == 14;
  }

  // ----- normalising a reported trap -----

  datatype RawTrap = RawTrap(rip: u64, reportedIp: u64, nr: u32, arch: u32)

  /** A system call issued by guest code: where, which number, under which architecture. */
  datatype Trap = Trap(guestRip: u64, nr: u32, arch: u32)

  /** Guest code has a whole system-call instruction at `site`: 0f 05 for the 64-bit architecture, cd 80
      for the 32-bit one. */
  ghost predicate CallInstruction(mappings: seq<MappingIntent>, code: int -> byte, site: int, arch: u32) {
    && ExactExecutable(mappings, site) && ExactExecutable(mappings, site + 1)
    && (|| (arch == 0xC000_003E && code(site) == 0x0f && code(site + 1) == 0x05)
        || (arch == 0x4000_0003 && code(site) == 0xcd && code(site + 1) == 0x80))
  }

  /** `exact_executable_contains`. */
  method ExactExecutableContains(mappings: seq<MappingIntent>, a: int) returns (r: bool)
    ensures r <==> ExactExecutable(mappings, a)
  {
    var i := 0;
    while i < |mappings|
      invariant 0 <= i <= |mappings|
      invariant forall k :: 0 <= k < i ==> !(mappings[k].permissions.execute && Contains(mappings[k].range, a))
    {
      if mappings[i].permissions.execute && Contains(mappings[i].range, a) {
        return true;
      }
      i := i + 1;
    }
    return false;
  }

  /** `normalize_seccomp_syscall_trap`: a trap is accepted exactly when a call instruction of its
      architecture ends at the saved instruction pointer and the kernel reports the instruction or its
      end; the call site is then two bytes back. `code` gives the guest bytes in memory, and a refusal
      names the address it is about. */
  method NormalizeTrap(mappings: seq<MappingIntent>, raw: RawTrap, code: int -> byte) returns (r: Result<Trap, u64>)
    ensures r.Ok? <==>
            && raw.rip >= 2 && CallInstruction(mappings, code, raw.rip - 2, raw.arch)
            && (raw.reportedIp == raw.rip - 2 || raw.reportedIp == raw.rip)
    ensures r.Ok? ==> r.value == Trap(raw.rip - 2, raw.nr, raw.arch)
    ensures r.Err? ==> r.error == if raw.rip < 2 then raw.rip else raw.rip - 2
  {
    if raw.rip < 2 {
      return Err(raw.rip);
    }
    var site := raw.rip - 2;
    var first := ExactExecutableContains(mappings, site);
    var second := ExactExecutableContains(mappings, site + 1);
    if !first || !second || (raw.reportedIp != site && raw.reportedIp != raw.rip) {
      return Err(site);
    }
    var recognized := false;
    if raw.arch == AUDIT_ARCH_X86_64 {
      recognized := code(site) == 0x0f && code(site + 1) == 0x05;
    } else if raw.arch == AUDIT_ARCH_I386 {
      recognized := code(site) == 0xcd && code(site + 1) == 0x80;
    }
    if !recognized {
      return Err(site);
    }
    return Ok(Trap(site, raw.nr, raw.arch));
  }

  /** The whole interception: every system-call instruction of guest code, whether the kernel reports its
      address or the one after it, is trapped by the installed filter, whatever its number. */
  lemma GuestCallsAreRaised(
    mappings: seq<MappingIntent>, ranges: seq<SignalRange>, code: int -> byte, site: u64,
    denied: seq<u32>, d: SyscallData)
    requires Envelopes(mappings, ranges) && (forall k :: 0 <= k < |ranges| ==> RangeOk(ranges[k]))
    requires CallInstruction(mappings, code, site, d.arch) && (d.ip == site || d.ip == site + 2)
    ensures Run(FilterFor(ranges, denied), 0, 0, d) == Some(RET_TRAP)
  {
    CallSitesAreTrapped(mappings, ranges, site, denied, d);
    FilterMeansPolicy(ranges, denied, 0, d);
  }

  /** Interception from the guest image to the event: install the filter, let guest code at `site` make
      a call, and normalise what the kernel reports. The call is trapped and comes back as itself. */
  method InterceptCall(mappings: seq<MappingIntent>, code: int -> byte, site: u64, d: SyscallData)
    returns (filter: Result<seq<Insn>, SetupError>, trap: Result<Trap, u64>)
    requires site + 2 <= U64_MAX && CallInstruction(mappings, code, site, d.arch)
    requires d.ip == site || d.ip == site + 2
    ensures filter.Ok? ==> Run(filter.value, 0, 0, d) == Some(RET_TRAP)
    ensures trap == Ok(Trap(site, d.nr, d.arch))
  {
    hide Run, HostPolicy, ExecutableRanges;
    filter := PrepareFilter(mappings);
    trap := NormalizeTrap(mappings, RawTrap(site + 2, d.ip, d.nr, d.arch), code);
  }
}
