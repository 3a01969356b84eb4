/** The scalar shader machine, defined on encoded words alone, and the proof that decoding, lowering,
    stepping and running lowered programs is that machine. Nothing here looks at instruction kinds,
    operations or branch conditions to say what a word does. */
module ShaderMachine {
  import opened Machine
  import opened Arithmetic
  import opened ShaderIr
  import opened ShaderProgram
  import opened ShaderCfg
  import opened ShaderExecution
  import opened ShaderRefinement
  import Rdna2

  // ----- the encoding of each operation -----

  function Top(w: u32): (t: nat) { w / 0x1_0000 }
  function Low(w: u32): (t: nat) { w % 0x1_0000 }
  function SignedLow(w: u32): (v: int) { if Low(w) < 0x8000 then Low(w) else Low(w) - 0x1_0000 }
  function Flag(b: bool): (n: nat) { if b then 1 else 0 }

  /** Operand selector `n` names this source; `next` is the word after the instruction. */
  predicate EncodesSource(source: ScalarSource, n: int, next: int) {
    match source
    case Sgpr(index) => n == index <= 105
    case Special(VccLo) => n == 106
    case Special(VccHi) => n == 107
    case Special(M0) => n == 124
    case Special(NullRegister) => n == 125
    case Special(ExecLo) => n == 126
    case Special(ExecHi) => n == 127
    case InlineInteger(value) => (0 <= value <= 64 && n == 128 + value) || (-16 <= value < 0 && n == 192 - value)
    case Literal(bits) => n == 255 && next == bits
  }

  /** The word `w`, followed by `next`, encodes the operation; bits that an encoding ignores are free. */
  predicate Encodes(op: Operation, w: u32, next: int) {
    match op
    case Nop(n) => Top(w) == 0xBF80 && n == Low(w) % 16 + 1
    case EndProgram => Top(w) == 0xBF81
    case RelativeBranch(delta) => Top(w) == 0xBF82 && delta == 4 * (SignedLow(w) + 1)
    case ConditionalBranch(SccZero, delta) => Top(w) == 0xBF84 && delta == 4 * (SignedLow(w) + 1)
    case ConditionalBranch(SccOne, delta) => Top(w) == 0xBF85 && delta == 4 * (SignedLow(w) + 1)
    case ConditionalBranch(VccZero, delta) => Top(w) == 0xBF86 && delta == 4 * (SignedLow(w) + 1)
    case ConditionalBranch(VccNonzero, delta) => Top(w) == 0xBF87 && delta == 4 * (SignedLow(w) + 1)
    case ConditionalBranch(ExecZero, delta) => Top(w) == 0xBF88 && delta == 4 * (SignedLow(w) + 1)
    case ConditionalBranch(ExecNonzero, delta) => Top(w) == 0xBF89 && delta == 4 * (SignedLow(w) + 1)
    case WorkgroupBarrier => Top(w) == 0xBF8A
    case WaitCount(vmcnt, expcnt, lgkmcnt) =>
      Top(w) == 0xBF8C && vmcnt == Low(w) / 0x4000 * 16 + Low(w) % 16 && expcnt == Low(w) / 16 % 8
      && lgkmcnt == Low(w) / 256 % 64
    case ScalarMove32(destination, source) =>
      Top(w) == 0xBE80 + destination && destination <= 105 && Low(w) / 256 == 3
      && EncodesSource(source, Low(w) % 256, next)
    case ScalarMove64(destination, source) =>
      Top(w) == 0xBE80 + destination && Low(w) / 256 == 4 && source == Low(w) % 256
      && destination <= 104 && destination % 2 == 0 && source <= 104 && source % 2 == 0
    case VectorMove32(vdst, vsrc) => w == 0x7E00_0000 + vdst * 0x2_0000 + 0x200 + 256 + vsrc
    case VectorAddF32(vdst, vsrc0, vsrc1) => w == 0x600_0000 + vdst * 0x2_0000 + vsrc1 * 0x200 + 256 + vsrc0
    case Export(target, enable, compressed, done, valid, sources) =>
      && w / 0x400_0000 == 0x3E && |sources| == 4 && next == FromLittleEndian(sources)
      && enable < 16
      && w % 0x2000 == Flag(valid) * 0x1000 + Flag(done) * 0x800 + Flag(compressed) * 0x400
                       + ExportCode(target) * 16 + enable
      && ValidTarget(target)
    case Unsupported(_) => false
  }

  function ExportCode(target: ExportTarget): (n: int) {
    match target
    case Mrt(k) => k
    case MrtZ => 8
    case NullTarget => 9
    case Position(k) => 12 + k
    case Primitive => 20
    case Parameter(k) => 32 + k
  }

  predicate ValidTarget(target: ExportTarget) {
    match target
    case Mrt(k) => k < 8
    case Position(k) => k < 4
    case Parameter(k) => k < 32
    case _ => true
  }

  // ----- word arithmetic -----

  /** The two format fields that sit above the top half's low seven bits. */
  lemma TopFields(w: u32)
    ensures Rdna2.Bits(w, 0x80_0000, 512) == Top(w) / 128 && Rdna2.Bits(w, 0x1_0000, 128) == Top(w) % 128
  {
    var kind, rest := Top(w) / 128, Top(w) % 128;
    DivMod(w, 0x80_0000, kind, rest * 0x1_0000 + Low(w));
  }

  lemma TopExport(w: u32)
    ensures Rdna2.Bits(w, 0x400_0000, 64) == w / 0x400_0000 == Top(w) / 1024
  {
    var kind, rest := Top(w) / 1024, Top(w) % 1024;
    DivMod(w, 0x400_0000, kind, rest * 0x1_0000 + Low(w));
  }

  lemma LowFields(w: u32)
    ensures Rdna2.Bits(w, 0x100, 256) == Low(w) / 256 && w % 256 == Low(w) % 256
  {
    var a, b := Low(w) / 256, Low(w) % 256;
    DivMod(w, 0x100, Top(w) * 0x100 + a, b);
    DivMod(Top(w) * 0x100 + a, 0x100, Top(w), a);
  }

  /** Vector words: nine source bits, eight, eight, then the operation. */
  lemma VectorFields(w: u32)
    ensures w == (w / 0x200_0000) * 0x200_0000 + Rdna2.Bits(w, 0x2_0000, 256) * 0x2_0000
                 + Rdna2.Bits(w, 0x200, 256) * 0x200 + w % 512
  {
    var a, b := w / 0x2_0000, w % 0x2_0000;
    VectorHigh(w, a, b);
    VectorLow(w, a, b);
  }

  lemma VectorHigh(w: u32, a: int, b: int)
    requires w == a * 0x2_0000 + b && 0 <= b < 0x2_0000
    ensures w / 0x200_0000 == a / 256 && w / 0x2_0000 == a
  {
    DivMod(w, 0x200_0000, a / 256, a % 256 * 0x2_0000 + b);
    DivMod(w, 0x2_0000, a, b);
  }

  lemma VectorLow(w: u32, a: int, b: int)
    requires w == a * 0x2_0000 + b && 0 <= b < 0x2_0000 && a >= 0
    ensures w / 0x200 % 256 == b / 512 && w % 512 == b % 512
  {
    DivMod(w, 0x200, a * 256 + b / 512, b % 512);
    DivMod(a * 256 + b / 512, 256, a, b / 512);
  }

  // ----- decoding and lowering are exactly the encoding -----

  function NextWord(words: seq<u32>, i: nat): (w: u32) {
    if i + 1 < |words| then words[i + 1] else 0
  }

  ghost predicate LowersTo(words: seq<u32>, i: nat, op: Operation) {
    var decoded := Rdna2.DecodeInstruction(words, i);
    decoded.Ok? && LowerInstruction(decoded.value) == op
  }

  ghost predicate Decodes(words: seq<u32>, i: nat) {
    i < |words| && Rdna2.DecodeInstruction(words, i).Ok?
  }

  predicate IsSopp(w: u32) { Top(w) / 128 == 0x17f }
  predicate IsSop1(w: u32) { Top(w) / 128 == 0x17d }
  predicate IsExport(w: u32) { w / 0x400_0000 == 0x3e }
  predicate IsVector(w: u32) { w < 0x8000_0000 }

  /** The four formats exclude each other. */
  lemma FormatsApart(w: u32)
    ensures IsSopp(w) ==> !IsSop1(w) && !IsExport(w) && !IsVector(w)
    ensures IsSop1(w) ==> !IsExport(w) && !IsVector(w)
    ensures IsExport(w) ==> !IsVector(w)
  {
    TopExport(w);
  }

  /** Each operation is encoded in its own format. */
  lemma EncodedFormat(op: Operation, w: u32, next: int)
    requires Encodes(op, w, next)
    ensures op.ScalarMove32? || op.ScalarMove64? ==> IsSop1(w)
    ensures op.VectorMove32? || op.VectorAddF32? ==> IsVector(w)
    ensures op.Export? ==> IsExport(w)
    ensures op.ScalarMove32? || op.ScalarMove64? || op.VectorMove32? || op.VectorAddF32? || op.Export? || IsSopp(w)
  {
  }

  lemma SoppDecodes(words: seq<u32>, i: nat)
    requires Decodes(words, i) && IsSopp(words[i])
    ensures var w := words[i];
            LowersTo(words, i, LowerSopp(Rdna2.SoppKind(Top(w) % 128), SignedLow(w)))
  {
    TopFields(words[i]);
    TopExport(words[i]);
    FormatsApart(words[i]);
    LowIsSimm16(words[i]);
  }

  lemma LowIsSimm16(w: u32)
    ensures Rdna2.Simm16(w) == SignedLow(w) && -0x8000 <= SignedLow(w) < 0x8000 && SignedLow(w) % 0x1_0000 == Low(w)
  {
  }

  lemma SoppExact(w: u32, next: int, op: Operation)
    requires IsSopp(w) && -0x8000 <= SignedLow(w) < 0x8000 && !op.Unsupported?
    ensures LowerSopp(Rdna2.SoppKind(Top(w) % 128), SignedLow(w)) == op <==> Encodes(op, w, next)
  {
    LowIsSimm16(w);
    assert Top(w) == 0xBF80 + Top(w) % 128;
    if Encodes(op, w, next) {
      EncodedFormat(op, w, next);
      FormatsApart(w);
    }
  }

  lemma Sop1Decodes(words: seq<u32>, i: nat)
    requires Decodes(words, i) && IsSop1(words[i])
    ensures var w := words[i];
            var literal := if Low(w) / 256 == 3 && Low(w) % 256 == 255 then Some(NextWord(words, i)) else None;
            LowersTo(words, i, LowerSop1(Rdna2.Sop1Kind(Low(w) / 256), Top(w) % 128, Low(w) % 256, literal))
  {
    TopFields(words[i]);
    TopExport(words[i]);
    LowFields(words[i]);
    FormatsApart(words[i]);
  }

  lemma SourceExact(n: byte, literal: Option<u32>, next: u32, source: ScalarSource)
    requires literal == if n == 255 then Some(next) else None
    ensures LowerScalarSource(n, literal) == Some(source) <==> EncodesSource(source, n, next)
  {
  }

  lemma Sop1Exact(w: u32, next: u32, op: Operation)
    requires IsSop1(w) && !op.Unsupported?
    ensures var literal := if Low(w) / 256 == 3 && Low(w) % 256 == 255 then Some(next) else None;
            LowerSop1(Rdna2.Sop1Kind(Low(w) / 256), Top(w) % 128, Low(w) % 256, literal) == op <==> Encodes(op, w, next)
  {
    hide LowerScalarSource, EncodesSource;
    assert Top(w) == 0xBE80 + Top(w) % 128;
    var n: byte := Low(w) % 256;
    var literal := if Low(w) / 256 == 3 && n == 255 then Some(next) else None;
    if Encodes(op, w, next) {
      EncodedFormat(op, w, next);
      FormatsApart(w);
    }
    if Low(w) / 256 == 3 && op.ScalarMove32? {
      SourceExact(n, literal, next, op.source32);
    }
  }

  lemma VectorDecodes(words: seq<u32>, i: nat)
    requires Decodes(words, i) && IsVector(words[i])
    ensures var w := words[i];
            var a, b, c, d := w / 0x200_0000, Rdna2.Bits(w, 0x2_0000, 256), Rdna2.Bits(w, 0x200, 256), w % 512;
            var op := Rdna2.DecodeInstruction(words, i).value;
            var extension := if d in {233, 234, 249, 250, 255} then Some(NextWord(words, i)) else None;
            && op.fields == (if a == 0x3f then Rdna2.Vop1(c, b, d, extension) else Rdna2.Vop2(a, b, d, c, extension))
            && op.kind == (if a == 0x3f then if c == 1 then Rdna2.VMovB32 else Rdna2.UnknownVop1
                           else if a == 3 then Rdna2.VAddF32 else Rdna2.UnknownVop2)
  {
    var w := words[i];
    TopFields(w);
    TopExport(w);
    FormatsApart(w);
    assert w / 0x200_0000 < 64;
  }

  lemma VectorExact(words: seq<u32>, i: nat, op: Operation)
    requires Decodes(words, i) && IsVector(words[i]) && !op.Unsupported?
    ensures LowersTo(words, i, op) <==> Encodes(op, words[i], NextWord(words, i))
  {
    hide Rdna2.DecodeInstruction;
    var w := words[i];
    VectorDecodes(words, i);
    VectorFields(w);
    if Encodes(op, w, NextWord(words, i)) {
      EncodedFormat(op, w, NextWord(words, i));
      FormatsApart(w);
      VectorUnique(w, op);
    }
  }

  /** The fields of a vector word are determined by its value. */
  lemma VectorUnique(w: u32, op: Operation)
    requires op.VectorMove32? || op.VectorAddF32?
    requires Encodes(op, w, 0)
    ensures Rdna2.Bits(w, 0x2_0000, 256) == op.vdst
    ensures op.VectorMove32? ==>
              w / 0x200_0000 == 0x3f && Rdna2.Bits(w, 0x200, 256) == 1 && w % 512 == 256 + op.vsrc
    ensures op.VectorAddF32? ==>
              w / 0x200_0000 == 3 && Rdna2.Bits(w, 0x200, 256) == op.vsrc1 && w % 512 == 256 + op.vsrc0
  {
    match op
    case VectorMove32(vdst, vsrc) =>
      var b := 0x200 + 256 + vsrc;
      VectorHigh(w, 0x3f00 + vdst, b);
      VectorLow(w, 0x3f00 + vdst, b);
    case VectorAddF32(vdst, vsrc0, vsrc1) =>
      var b := vsrc1 * 0x200 + 256 + vsrc0;
      VectorHigh(w, 0x300 + vdst, b);
      VectorLow(w, 0x300 + vdst, b);
    case _ =>
  }

  lemma ExportDecodes(words: seq<u32>, i: nat)
    requires Decodes(words, i) && IsExport(words[i])
    ensures i + 1 < |words|
    ensures var w, n := words[i], words[i + 1];
            var fields := Rdna2.Exp(w % 16, Rdna2.Bits(w, 16, 64), Rdna2.Bits(w, 0x400, 2) != 0,
                                    Rdna2.Bits(w, 0x800, 2) != 0, Rdna2.Bits(w, 0x1000, 2) != 0,
                                    [n % 256, Rdna2.Bits(n, 0x100, 256),
                                     Rdna2.Bits(n, 0x1_0000, 256), Rdna2.Bits(n, 0x100_0000, 256)]);
            Rdna2.DecodeInstruction(words, i) == Ok(Rdna2.Instruction(i, 2, 4 * i, w, Rdna2.ExpKind, fields))
  {
    TopExport(words[i]);
  }

  /** The thirteen control bits of an export word, one field at a time. */
  lemma ExportFields(w: u32, valid: int, done: int, compressed: int, target: int, enable: int)
    requires 0 <= valid < 2 && 0 <= done < 2 && 0 <= compressed < 2 && 0 <= target < 64 && 0 <= enable < 16
    ensures w % 0x2000 == valid * 0x1000 + done * 0x800 + compressed * 0x400 + target * 16 + enable <==>
            && Rdna2.Bits(w, 0x1000, 2) == valid && Rdna2.Bits(w, 0x800, 2) == done
            && Rdna2.Bits(w, 0x400, 2) == compressed && Rdna2.Bits(w, 16, 64) == target && w % 16 == enable
  {
    var low, high := w % 0x2000, w / 0x2000;
    LowControl(w, high, low);
    ControlFields(low, valid, done, compressed, target, enable);
  }

  lemma LowControl(w: u32, high: int, low: int)
    requires w == high * 0x2000 + low && 0 <= low < 0x2000 && high >= 0
    ensures Rdna2.Bits(w, 0x1000, 2) == low / 0x1000 && Rdna2.Bits(w, 0x800, 2) == low / 0x800 % 2
    ensures Rdna2.Bits(w, 0x400, 2) == low / 0x400 % 2 && Rdna2.Bits(w, 16, 64) == low / 16 % 64 && w % 16 == low % 16
  {
    LowField(w, high, low, 0x1000, 2, 1);
    LowField(w, high, low, 0x800, 2, 2);
    LowField(w, high, low, 0x400, 2, 4);
    LowField(w, high, low, 16, 64, 8);
    DivMod(w, 16, high * 512 + low / 16, low % 16);
    DivMod(low / 0x1000, 2, 0, low / 0x1000);
  }

  /** A field inside the low thirteen bits does not see the bits above. */
  lemma LowField(w: int, high: int, low: int, shift: int, modulus: int, above: int)
    requires w == high * 0x2000 + low && 0 <= low < 0x2000
    requires shift > 0 && modulus > 0 && 0x2000 == shift * (modulus * above)
    ensures w / shift % modulus == low / shift % modulus
  {
    var q, r := low / shift, low % shift;
    var k := modulus * above;
    Distribute(high, shift, k);
    DivMod(w, shift, high * k + q, r);
    FieldAbove(high, modulus, above, q);
  }

  lemma Distribute(high: int, shift: int, k: int)
    ensures high * (shift * k) == shift * (high * k)
  {
  }

  lemma FieldAbove(high: int, modulus: int, above: int, q: int)
    requires modulus > 0
    ensures (high * (modulus * above) + q) % modulus == q % modulus
  {
    Distribute(high, modulus, above);
    DivMod(high * (modulus * above) + q, modulus, high * above + q / modulus, q % modulus);
  }

  lemma ControlFields(low: int, valid: int, done: int, compressed: int, target: int, enable: int)
    requires 0 <= low < 0x2000
    requires 0 <= valid < 2 && 0 <= done < 2 && 0 <= compressed < 2 && 0 <= target < 64 && 0 <= enable < 16
    ensures low == valid * 0x1000 + done * 0x800 + compressed * 0x400 + target * 16 + enable <==>
            && low / 0x1000 == valid && low / 0x800 % 2 == done && low / 0x400 % 2 == compressed
            && low / 16 % 64 == target && low % 16 == enable
  {
    var a, x := low / 0x1000, low % 0x1000;
    var b, y := x / 0x800, x % 0x800;
    var c, z := y / 0x400, y % 0x400;
    var d, e := z / 16, z % 16;
    ControlQuotients(low, a, b, c, d, e);
    SameDigits(a, b, c, d, e, valid, done, compressed, target, enable);
  }

  lemma ControlQuotients(low: int, a: int, b: int, c: int, d: int, e: int)
    requires low == a * 0x1000 + b * 0x800 + c * 0x400 + d * 16 + e
    requires 0 <= a < 2 && 0 <= b < 2 && 0 <= c < 2 && 0 <= d < 64 && 0 <= e < 16
    ensures low / 0x1000 == a && low / 0x800 % 2 == b && low / 0x400 % 2 == c && low / 16 % 64 == d && low % 16 == e
  {
    DivMod(low, 0x1000, a, b * 0x800 + c * 0x400 + d * 16 + e);
    DivMod(low, 0x800, a * 2 + b, c * 0x400 + d * 16 + e);
    DivMod(low, 0x400, a * 4 + b * 2 + c, d * 16 + e);
    DivMod(low, 16, a * 256 + b * 128 + c * 64 + d, e);
    DivMod(a * 2 + b, 2, a, b);
    DivMod(a * 4 + b * 2 + c, 2, a * 2 + b, c);
    DivMod(a * 256 + b * 128 + c * 64 + d, 64, a * 4 + b * 2 + c, d);
  }

  function Control(a: int, b: int, c: int, d: int, e: int): (v: int) {
    a * 0x1000 + b * 0x800 + c * 0x400 + d * 16 + e
  }

  /** Equal sums have equal digits. */
  lemma SameDigits(a: int, b: int, c: int, d: int, e: int, a': int, b': int, c': int, d': int, e': int)
    requires 0 <= a < 2 && 0 <= b < 2 && 0 <= c < 2 && 0 <= d < 64 && 0 <= e < 16
    requires 0 <= a' < 2 && 0 <= b' < 2 && 0 <= c' < 2 && 0 <= d' < 64 && 0 <= e' < 16
    ensures Control(a, b, c, d, e) == Control(a', b', c', d', e') <==>
            a == a' && b == b' && c == c' && d == d' && e == e'
  {
    if Control(a, b, c, d, e) == Control(a', b', c', d', e') {
      SameQuotient(0x1000, a, a', b * 0x800 + c * 0x400 + d * 16 + e, b' * 0x800 + c' * 0x400 + d' * 16 + e');
      SameQuotient(0x800, b, b', c * 0x400 + d * 16 + e, c' * 0x400 + d' * 16 + e');
      SameQuotient(0x400, c, c', d * 16 + e, d' * 16 + e');
      SameQuotient(16, d, d', e, e');
    }
  }

  /** The four source bytes of an export are its second word, least significant byte first. */
  lemma ExportSources(n: u32, sources: seq<byte>)
    ensures |sources| == 4 && n == FromLittleEndian(sources) <==>
            sources == [n % 256, Rdna2.Bits(n, 0x100, 256),
                        Rdna2.Bits(n, 0x1_0000, 256), Rdna2.Bits(n, 0x100_0000, 256)]
  {
    var bytes := [n % 256, Rdna2.Bits(n, 0x100, 256), Rdna2.Bits(n, 0x1_0000, 256), Rdna2.Bits(n, 0x100_0000, 256)];
    FourBytes(n);
    FromFour(bytes);
    Widths();
    if |sources| == 4 && n == FromLittleEndian(sources) {
      EncodeDecode(sources);
      EncodeDecode(bytes);
    }
  }

  lemma FourBytes(n: u32)
    ensures n == n % 256 + 256 * (n / 0x100 % 256) + 0x1_0000 * (n / 0x1_0000 % 256)
                 + 0x100_0000 * (n / 0x100_0000 % 256)
  {
    var a, x := n % 256, n / 256;
    var b, y := x % 256, x / 256;
    var c, z := y % 256, y / 256;
    DivMod(n, 0x1_0000, y, a + 256 * b);
    DivMod(n, 0x100_0000, z, a + 256 * b + 0x1_0000 * c);
  }

  lemma FromFour(s: seq<byte>)
    requires |s| == 4
    ensures var a: int, b: int, c: int, d: int := s[0], s[1], s[2], s[3];
            FromLittleEndian(s) == a + 256 * b + 0x1_0000 * c + 0x100_0000 * d
  {
    var c: int, d: int := s[2], s[3];
    assert s[1..][1..] == s[2..] && s[2..][1..] == s[3..] && s[3..][1..] == [];
    assert FromLittleEndian(s[3..]) == s[3] && FromLittleEndian(s[2..]) == c + 256 * d;
    assert FromLittleEndian(s[1..]) == s[1] + 256 * FromLittleEndian(s[2..]);
  }

  lemma TargetExact(n: byte, target: ExportTarget)
    ensures LowerExportTarget(n) == Some(target) <==> n == ExportCode(target) && ValidTarget(target)
  {
  }

  lemma ExportExact(words: seq<u32>, i: nat, op: Operation)
    requires Decodes(words, i) && IsExport(words[i]) && !op.Unsupported?
    ensures LowersTo(words, i, op) <==> Encodes(op, words[i], NextWord(words, i))
  {
    hide Rdna2.DecodeInstruction, Rdna2.Bits, LowerExportTarget, FromLittleEndian, Flag;
    var w, n := words[i], NextWord(words, i);
    ExportDecodes(words, i);
    if Encodes(op, w, n) {
      EncodedFormat(op, w, n);
      FormatsApart(w);
    }
    if op.Export? {
      TargetExact(Rdna2.Bits(w, 16, 64), op.target);
      ExportSources(n, op.sources);
      if ValidTarget(op.target) {
        ExportControl(w, op);
      }
    }
  }

  /** The control bits of an export word, as the decoder reads them. */
  lemma ExportControl(w: u32, op: Operation)
    requires op.Export? && ValidTarget(op.target)
    ensures op.enableMask < 16
            && w % 0x2000 == Flag(op.validMask) * 0x1000 + Flag(op.done) * 0x800 + Flag(op.compressed) * 0x400
                             + ExportCode(op.target) * 16 + op.enableMask
       <==> && op.enableMask == w % 16 && ExportCode(op.target) == Rdna2.Bits(w, 16, 64)
            && op.compressed == (Rdna2.Bits(w, 0x400, 2) != 0) && op.done == (Rdna2.Bits(w, 0x800, 2) != 0)
            && op.validMask == (Rdna2.Bits(w, 0x1000, 2) != 0)
  {
    hide Rdna2.Bits;
    if op.enableMask < 16 {
      ExportFields(w, Flag(op.validMask), Flag(op.done), Flag(op.compressed), ExportCode(op.target), op.enableMask);
    }
  }

  /** A word in none of the four formats lowers to nothing supported. */
  lemma OtherFormats(words: seq<u32>, i: nat, op: Operation)
    requires Decodes(words, i) && !op.Unsupported?
    requires !IsSopp(words[i]) && !IsSop1(words[i]) && !IsVector(words[i]) && !IsExport(words[i])
    ensures !LowersTo(words, i, op) && !Encodes(op, words[i], NextWord(words, i))
  {
    TopFields(words[i]);
    TopExport(words[i]);
    if Rdna2.Bits(words[i], 0x200_0000, 128) == Rdna2.VOP1_ENCODING {
      Rdna2.Vop1HasClearTopBit(words[i]);
    }
    if Encodes(op, words[i], NextWord(words, i)) {
      EncodedFormat(op, words[i], NextWord(words, i));
    }
  }

  /** Decoding and lowering together: an instruction becomes a supported operation exactly when its words
      encode that operation. */
  lemma LoweringIsTheEncoding(words: seq<u32>, i: nat, op: Operation)
    requires Decodes(words, i) && !op.Unsupported?
    ensures LowersTo(words, i, op) <==> Encodes(op, words[i], NextWord(words, i))
  {
    hide Rdna2.DecodeInstruction, LowerInstruction, Encodes, LowerSopp, LowerSop1;
    var w, n := words[i], NextWord(words, i);
    if IsSopp(w) {
      SoppDecodes(words, i);
      LowIsSimm16(w);
      SoppExact(w, n, op);
    } else if IsSop1(w) {
      Sop1Decodes(words, i);
      Sop1Exact(w, n, op);
    } else if IsVector(w) {
      VectorExact(words, i, op);
    } else if IsExport(w) {
      ExportExact(words, i, op);
    } else {
      OtherFormats(words, i, op);
    }
  }

  /** Which words are not supported, and why; a decoded instruction is never inconsistent. */
  lemma UnsupportedReasons(words: seq<u32>, i: nat, reason: UnsupportedReason)
    requires Decodes(words, i) && LowersTo(words, i, Unsupported(reason))
    ensures var w := words[i];
            reason == if IsSopp(w) then UnknownSoppOpcode
                      else if IsSop1(w) then
                        if Low(w) / 256 == 3 || Low(w) / 256 == 4 then UnsupportedScalarOperand else UnknownSop1Opcode
                      else if IsExport(w) then UnknownExportTarget
                      else if !IsVector(w) then UnsupportedEncoding
                      else if w / 0x200_0000 == 0x3f then
                        if Rdna2.Bits(w, 0x200, 256) == 1 then UnsupportedVectorOperand else UnknownVop1Opcode
                      else if w / 0x200_0000 == 3 then UnsupportedVectorOperand else UnknownVop2Opcode
  {
    hide Rdna2.DecodeInstruction, LowerScalarSource, LowerExportTarget;
    var w := words[i];
    FormatsApart(w);
    if IsSopp(w) {
      LowIsSimm16(w);
      SoppDecodes(words, i);
    } else if IsSop1(w) {
      Sop1Decodes(words, i);
    } else if IsVector(w) {
      VectorDecodes(words, i);
    } else if IsExport(w) {
      ExportDecodes(words, i);
    } else {
      OtherReason(words, i);
    }
  }

  lemma OtherReason(words: seq<u32>, i: nat)
    requires Decodes(words, i)
    requires !IsSopp(words[i]) && !IsSop1(words[i]) && !IsVector(words[i]) && !IsExport(words[i])
    ensures LowersTo(words, i, Unsupported(UnsupportedEncoding))
  {
    TopFields(words[i]);
    TopExport(words[i]);
    if Rdna2.Bits(words[i], 0x200_0000, 128) == Rdna2.VOP1_ENCODING {
      Rdna2.Vop1HasClearTopBit(words[i]);
    }
  }

  // ----- the machine on words -----

  datatype WordResult =
    | At(word: int, state: ScalarValue, effects: seq<Effect>)
    | Ended(state: ScalarValue)
    | NotExecutable

  /** The value that an operand selector denotes. */
  function Operand(n: nat, next: u32, s: ScalarValue): (r: Option<u32>) {
    if n <= 105 then Some(s.sgprs[n])
    else if n == 106 then Some(s.vcc % TWO32)
    else if n == 107 then Some(s.vcc / TWO32)
    else if n == 124 then Some(s.m0)
    else if n == 125 then Some(0)
    else if n == 126 then Some(s.exec % TWO32)
    else if n == 127 then Some(s.exec / TWO32)
    else if 128 <= n <= 192 then Some(n - 128)
    else if 193 <= n <= 208 then Some(TWO32 - (n - 192))
    else if n == 255 then Some(next)
    else None
  }

  /** What one instruction does, read off its words: `s_nop`, `s_endpgm`, the branches, `s_mov_b32` and
      `s_mov_b64`. Everything else is outside the scalar machine. */
  function WordStep(words: seq<u32>, i: nat, s: ScalarValue): (r: WordResult)
    requires i < |words|
  {
    var w := words[i];
    var target := i + 1 + SignedLow(w);
    match Top(w)
    case 0xBF80 => At(i + 1, s, [])
    case 0xBF81 => Ended(s)
    case 0xBF82 => At(target, s, [])
    case 0xBF84 => At(if !s.scc then target else i + 1, s, [])
    case 0xBF85 => At(if s.scc then target else i + 1, s, [])
    case 0xBF86 => At(if s.vcc == 0 then target else i + 1, s, [])
    case 0xBF87 => At(if s.vcc != 0 then target else i + 1, s, [])
    case 0xBF88 => At(if s.exec == 0 then target else i + 1, s, [])
    case 0xBF89 => At(if s.exec != 0 then target else i + 1, s, [])
    case _ => if 0xBE80 <= Top(w) < 0xBF00 then MoveStep1(words, i, s) else NotExecutable
  }

  /** `s_mov_b32` writes one register, `s_mov_b64` an aligned pair. */
  function MoveStep1(words: seq<u32>, i: nat, s: ScalarValue): (r: WordResult)
    requires i < |words| && 0xBE80 <= Top(words[i]) < 0xBF00
  {
    var w := words[i];
    var d, opcode, n := Top(w) - 0xBE80, Low(w) / 256, Low(w) % 256;
    if opcode == 3 && d <= 105 && Operand(n, NextWord(words, i), s).Some? then
      var v := Operand(n, NextWord(words, i), s).value;
      At(if n == 255 then i + 2 else i + 1, s.(sgprs := s.sgprs[d := v]), [Effect(Bits32, d, v, 0)])
    else if opcode == 4 && d <= 104 && d % 2 == 0 && n <= 104 && n % 2 == 0 then
      var low, high := s.sgprs[n], s.sgprs[n + 1];
      At(i + 1, s.(sgprs := s.sgprs[d := low][d + 1 := high]), [Effect(Bits64, d, low, high)])
    else NotExecutable
  }

  /** A source that a selector encodes has the value that the selector denotes. */
  lemma OperandIsSource(source: ScalarSource, n: nat, next: u32, s: ScalarValue)
    requires EncodesSource(source, n, next)
    ensures ReadSource(source, s).Ok? && Operand(n, next, s) == Some(ReadSource(source, s).value)
  {
  }

  /** Every selector that denotes a value encodes some source. */
  lemma OperandHasSource(n: nat, next: u32, s: ScalarValue) returns (source: ScalarSource)
    requires Operand(n, next, s).Some?
    ensures EncodesSource(source, n, next)
  {
    source := if n <= 105 then Sgpr(n)
              else if n == 106 then Special(VccLo)
              else if n == 107 then Special(VccHi)
              else if n == 124 then Special(M0)
              else if n == 125 then Special(NullRegister)
              else if n == 126 then Special(ExecLo)
              else if n == 127 then Special(ExecHi)
              else if 128 <= n <= 192 then InlineInteger(n - 128)
              else if 193 <= n <= 208 then InlineInteger(192 - n)
              else Literal(next);
  }

  // ----- stepping a lowered program is stepping the words -----

  /** The word where emission `k` starts; the end of the stream after the last one. */
  function WordOf(p: Program, k: nat): (w: int)
    requires k <= |p.emissions|
  {
    if k < |p.emissions| then p.emissions[k].source.wordIndex else p.sourceWordCount
  }

  /** Fetch, decode and lowering of an emission, as facts about its words. */
  lemma EmissionWords(words: seq<u32>, p: Program, k: nat)
    requires IsLoweringOf(words, p) && k < |p.emissions|
    ensures Decodes(words, WordOf(p, k)) && LowersTo(words, WordOf(p, k), p.emissions[k].operation)
    ensures WordOf(p, k + 1) == WordOf(p, k) + Rdna2.InstructionLength(words[WordOf(p, k)])
  {
    hide Rdna2.DecodeInstruction, LowerInstruction, Rdna2.InstructionLength;
    var starts := Starts(p.emissions, |words|);
    assert LoweredFrom(words, p.emissions[k]);
    assert starts[k] == WordOf(p, k) && starts[k + 1] == WordOf(p, k + 1);
  }

  /** The length table, on the words that the scalar machine executes. */
  lemma ScalarLength(w: u32)
    ensures IsSopp(w) ==> Rdna2.InstructionLength(w) == 1
    ensures IsSop1(w) ==> Rdna2.InstructionLength(w) == if Low(w) / 256 == 3 && Low(w) % 256 == 255 then 2 else 1
  {
    TopFields(w);
    TopExport(w);
    LowFields(w);
    FormatsApart(w);
  }

  /** The whole length table, in numbers: exports, 32-bit scalar moves of a literal, and vector words whose
      first source is an extension take two words, everything else one. */
  lemma LengthMeans(w: u32)
    ensures Rdna2.InstructionLength(w) == 2 <==>
            || w / 0x400_0000 == 0x3E
            || (w / 0x80_0000 == 0x17D && w / 0x100 % 256 == 3 && w % 256 == 255)
            || (w < 0x8000_0000 && w % 512 in {233, 234, 249, 250, 255})
  {
    TopFields(w);
    TopExport(w);
    FormatsApart(w);
    DivMod(w, 0x80_0000, Top(w) / 128, Top(w) % 128 * 0x1_0000 + Low(w));
  }

  /** A taken branch of a lowered program lands on the word that the encoding names. */
  lemma BranchLandsOnWord(words: seq<u32>, p: Program, k: nat)
    requires IsLoweringOf(words, p) && AllBranchesResolve(p) && BranchAt(p, k)
    ensures Target(p, k).Some?
    ensures WordOf(p, Target(p, k).value) == WordOf(p, k) + 1 + SignedLow(words[WordOf(p, k)])
  {
    hide Rdna2.DecodeInstruction, LowerInstruction, Encodes, FindStart, IsLoweringOf;
    assert Resolves(p, k);
    EmissionWords(words, p, k);
    var w := words[WordOf(p, k)];
    LoweringIsTheEncoding(words, WordOf(p, k), p.emissions[k].operation);
    BranchDeltaOf(p.emissions[k].operation, w, NextWord(words, WordOf(p, k)));
  }

  lemma BranchDeltaOf(op: Operation, w: u32, next: int)
    requires Encodes(op, w, next) && IsBranch(op)
    ensures op.byteDelta == 4 * (SignedLow(w) + 1)
  {
  }

  /** The step of a lowered program says the same as the word machine: the same next word, the same
      state and the same writes, the same end, and a fault exactly on words that are not executable. */
  ghost predicate SameStep(p: Program, step: StepResult, r: WordResult) {
    match r
    case At(word, state, effects) =>
      || (step.Goto? && step.pc < |p.emissions| && WordOf(p, step.pc) == word && step.state == state
          && step.effects == effects)
      || (step == Halt(state, effects) && word == p.sourceWordCount)
    case Ended(state) => step == Halt(state, [])
    case NotExecutable => step == Fault(NotScalar)
  }

  lemma FallsTo(p: Program, pc: nat, s: ScalarValue, effects: seq<Effect>, word: int)
    requires pc < |p.emissions| && word == WordOf(p, pc + 1)
    ensures SameStep(p, FallThrough(p, pc, s, effects), At(word, s, effects))
  {
  }

  lemma StepIsTheWordStep(words: seq<u32>, p: Program, pc: nat, s: ScalarValue)
    requires IsLoweringOf(words, p) && AllBranchesResolve(p) && pc < |p.emissions|
    ensures Resolves(p, pc) && WordOf(p, pc) < |words|
    ensures SameStep(p, Step(p, pc, s), WordStep(words, WordOf(p, pc), s))
  {
    hide Rdna2.DecodeInstruction, LowerInstruction, FindStart, IsLoweringOf, LowersTo, Rdna2.InstructionLength;
    assert Resolves(p, pc);
    EmissionWords(words, p, pc);
    var i, op := WordOf(p, pc), p.emissions[pc].operation;
    if IsBranch(op) || op.Nop? || op.EndProgram? {
      ControlStepIsTheWordStep(words, p, pc, s);
    } else if IsMove(op) {
      MoveStepIsTheWordStep(words, p, pc, s);
    } else {
      OtherStepIsTheWordStep(words, p, pc, s);
    }
  }

  lemma ControlStepIsTheWordStep(words: seq<u32>, p: Program, pc: nat, s: ScalarValue)
    requires IsLoweringOf(words, p) && AllBranchesResolve(p) && pc < |p.emissions| && Resolves(p, pc)
    requires var op := p.emissions[pc].operation; IsBranch(op) || op.Nop? || op.EndProgram?
    ensures WordOf(p, pc) < |words| && SameStep(p, Step(p, pc, s), WordStep(words, WordOf(p, pc), s))
  {
    hide Rdna2.DecodeInstruction, LowerInstruction, FindStart, IsLoweringOf, LowersTo;
    hide Rdna2.InstructionLength, SameStep;
    EmissionWords(words, p, pc);
    var i, op := WordOf(p, pc), p.emissions[pc].operation;
    var w := words[i];
    LoweringIsTheEncoding(words, i, op);
    EncodedFormat(op, w, NextWord(words, i));
    ScalarLength(w);
    FallsTo(p, pc, s, [], i + 1);
    if IsBranch(op) {
      BranchLandsOnWord(words, p, pc);
      JumpsSame(p, pc, s, i + 1 + SignedLow(w));
    }
    EndsSame(p, s);
  }

  lemma JumpsSame(p: Program, pc: nat, s: ScalarValue, word: int)
    requires BranchAt(p, pc) && Target(p, pc).Some? && WordOf(p, Target(p, pc).value) == word
    ensures SameStep(p, Goto(Target(p, pc).value, s, []), At(word, s, []))
  {
  }

  lemma EndsSame(p: Program, s: ScalarValue)
    ensures SameStep(p, Halt(s, []), Ended(s)) && SameStep(p, Fault(NotScalar), NotExecutable)
  {
  }

  lemma MoveStepIsTheWordStep(words: seq<u32>, p: Program, pc: nat, s: ScalarValue)
    requires IsLoweringOf(words, p) && pc < |p.emissions| && Resolves(p, pc) && IsMove(p.emissions[pc].operation)
    ensures WordOf(p, pc) < |words| && SameStep(p, Step(p, pc, s), WordStep(words, WordOf(p, pc), s))
  {
    hide Rdna2.DecodeInstruction, LowerInstruction, IsLoweringOf, LowersTo, Rdna2.InstructionLength, SameStep;
    hide ReadSource, Operand, EncodesSource;
    EmissionWords(words, p, pc);
    var i, op := WordOf(p, pc), p.emissions[pc].operation;
    var w, next := words[i], NextWord(words, i);
    LoweringIsTheEncoding(words, i, op);
    EncodedFormat(op, w, next);
    ScalarLength(w);
    if op.ScalarMove32? {
      OperandIsSource(op.source32, Low(w) % 256, next, s);
    }
    var moved := MoveResult(op, s).value;
    FallsTo(p, pc, moved.0, [moved.1], WordOf(p, pc + 1));
  }

  lemma OtherStepIsTheWordStep(words: seq<u32>, p: Program, pc: nat, s: ScalarValue)
    requires IsLoweringOf(words, p) && pc < |p.emissions| && Resolves(p, pc)
    requires var op := p.emissions[pc].operation; !(IsBranch(op) || op.Nop? || op.EndProgram? || IsMove(op))
    ensures WordOf(p, pc) < |words| && SameStep(p, Step(p, pc, s), WordStep(words, WordOf(p, pc), s))
  {
    hide Rdna2.DecodeInstruction, LowerInstruction, IsLoweringOf, LowersTo, Rdna2.InstructionLength, Operand, WordStep;
    EmissionWords(words, p, pc);
    var i := WordOf(p, pc);
    if WordStep(words, i, s) != NotExecutable {
      var op := ExecutableOperation(words, i, s);
      LoweringIsTheEncoding(words, i, op);
      SameLowering(words, i, op, p.emissions[pc].operation);
    }
  }

  lemma SameLowering(words: seq<u32>, i: nat, a: Operation, b: Operation)
    requires LowersTo(words, i, a) && LowersTo(words, i, b)
    ensures a == b
  {
  }

  /** Every executable word encodes an operation of the scalar subset. */
  lemma ExecutableOperation(words: seq<u32>, i: nat, s: ScalarValue) returns (op: Operation)
    requires i < |words| && WordStep(words, i, s) != NotExecutable
    ensures Encodes(op, words[i], NextWord(words, i))
    ensures IsBranch(op) || op.Nop? || op.EndProgram? || IsMove(op)
  {
    hide Operand, EncodesSource;
    var w := words[i];
    var delta := 4 * (SignedLow(w) + 1);
    match Top(w)
    case 0xBF80 => op := Nop(Low(w) % 16 + 1);
    case 0xBF81 => op := EndProgram;
    case 0xBF82 => op := RelativeBranch(delta);
    case 0xBF84 => op := ConditionalBranch(SccZero, delta);
    case 0xBF85 => op := ConditionalBranch(SccOne, delta);
    case 0xBF86 => op := ConditionalBranch(VccZero, delta);
    case 0xBF87 => op := ConditionalBranch(VccNonzero, delta);
    case 0xBF88 => op := ConditionalBranch(ExecZero, delta);
    case 0xBF89 => op := ConditionalBranch(ExecNonzero, delta);
    case _ =>
      if Low(w) / 256 == 3 {
        var source := OperandHasSource(Low(w) % 256, NextWord(words, i), s);
        op := ScalarMove32(Top(w) - 0xBE80, source);
      } else {
        op := ScalarMove64(Top(w) - 0xBE80, Low(w) % 256);
      }
  }

  // ----- running a lowered program is running the words -----

  datatype WordState = WordState(word: int, state: ScalarValue, effects: seq<Effect>)

  /** The word machine after `n` instructions; it stays where it is at the end of the program, at the end
      of the stream and on a word it cannot execute. */
  function WordRun(words: seq<u32>, from: WordState, n: nat): (r: WordState)
    decreases n
  {
    if n == 0 || !(0 <= from.word < |words|) then from
    else
      match WordStep(words, from.word, from.state)
      case At(word, state, effects) => WordRun(words, WordState(word, state, from.effects + effects), n - 1)
      case Ended(state) => from.(state := state)
      case NotExecutable => from
  }

  /** The interpreter's outcome after starting from a log, as a run of the word machine. */
  ghost predicate SameRun(words: seq<u32>, p: Program, from: WordState, steps: nat, outcome: Outcome) {
    && outcome.log.steps >= steps
    && var last := WordRun(words, from, outcome.log.steps - steps);
       && last.state == outcome.state && last.effects == outcome.log.effects
       && (outcome.Exhausted? ==> outcome.pc < |p.emissions| && last.word == WordOf(p, outcome.pc))
       && (outcome.Failed? ==>
             && outcome.pc < |p.emissions| && last.word == WordOf(p, outcome.pc) < |words|
             && WordStep(words, last.word, last.state) == NotExecutable)
       && (outcome.Done? ==>
             || last.word == |words|
             || (0 <= last.word < |words| && WordStep(words, last.word, last.state).Ended?))
  }

  lemma {:induction false} InterpreterIsTheWordRun(
    words: seq<u32>, p: Program, pc: nat, s: ScalarValue, budget: nat, log: Log)
    requires IsLoweringOf(words, p) && AllBranchesResolve(p) && pc < |p.emissions| && log.entered <= budget
    ensures SameRun(words, p, WordState(WordOf(p, pc), s, log.effects), log.steps, Interpret(p, pc, s, budget, log))
    decreases if IsLeader(p, pc) then budget - log.entered else budget - log.entered + 1, |p.emissions| - pc
  {
    hide IsLoweringOf, WordStep, Step, IsLeader, AllBranchesResolve;
    var from := WordState(WordOf(p, pc), s, log.effects);
    StepIsTheWordStep(words, p, pc, s);
    var r := WordStep(words, from.word, s);
    if !(IsLeader(p, pc) && log.entered == budget) {
      JumpsLandOnLeaders(p, pc, s);
      var step := Step(p, pc, s);
      assert log.effects + [] == log.effects;
      if step.Goto? {
        var log' := Entering(p, pc, log).(effects := log.effects + step.effects, steps := log.steps + 1);
        InterpreterIsTheWordRun(words, p, step.pc, step.state, budget, log');
        RunOneMore(words, from, step, Interpret(p, step.pc, step.state, budget, log').log.steps - log'.steps);
      } else if step.Halt? {
        EndOfStream(words, p);
        EndedKeeps(words, from.word, s);
        LastWordStep(words, from);
      }
    }
  }

  lemma EndedKeeps(words: seq<u32>, i: nat, s: ScalarValue)
    requires i < |words|
    ensures WordStep(words, i, s).Ended? ==> WordStep(words, i, s).state == s
  {
  }

  lemma LastWordStep(words: seq<u32>, from: WordState)
    requires 0 <= from.word < |words|
    ensures var r := WordStep(words, from.word, from.state);
            && (r.At? && r.word == |words| ==>
                  WordRun(words, from, 1) == WordState(r.word, r.state, from.effects + r.effects))
            && (r.Ended? ==> WordRun(words, from, 1) == from.(state := r.state))
  {
    hide WordStep;
  }

  lemma EndOfStream(words: seq<u32>, p: Program)
    ensures IsLoweringOf(words, p) ==> p.sourceWordCount == |words|
  {
  }

  lemma RunOneMore(words: seq<u32>, from: WordState, step: StepResult, n: nat)
    requires 0 <= from.word < |words| && step.Goto?
    requires WordStep(words, from.word, from.state).At?
    requires WordStep(words, from.word, from.state).state == step.state
    requires WordStep(words, from.word, from.state).effects == step.effects
    ensures WordRun(words, from, n + 1)
         == WordRun(words, WordState(WordStep(words, from.word, from.state).word, step.state,
                                     from.effects + step.effects), n)
  {
    hide WordStep;
  }

  /** What the report of a block-by-block run says about the word machine started at `from`. */
  ghost predicate ReportsWordRun(words: seq<u32>, p: Program, g: Graph, from: WordState, run: RunOutcome) {
    match run.0
    case Ok(blocks) =>
      var last := WordRun(words, from, TotalSteps(blocks));
      && last.state == run.1 && last.effects == AllEffects(blocks)
      && (last.word == |words| || (0 <= last.word < |words| && WordStep(words, last.word, last.state).Ended?))
    case Err(e) =>
      if e.code == BudgetExhausted then
        var last := WordRun(words, from, TotalSteps(e.completed));
        && last.state == run.1 && last.effects == AllEffects(e.completed)
        && e.current < |g.blocks| && g.blocks[e.current].first < |p.emissions|
        && last.word == WordOf(p, g.blocks[e.current].first)
      else
        && e.code == BlockFailure && e.blockError.Some?
        && var last := WordRun(words, from, TotalSteps(e.completed) + e.blockError.value.completed);
           && last.state == run.1 && AllEffects(e.completed) <= last.effects
           && 0 <= last.word < |words| && WordStep(words, last.word, last.state) == NotExecutable
  }

  /** The whole pipeline on words: decode, lower, build the graph, run block by block under a budget. The
      final state, and the writes in order, are those of the word machine after the instructions that
      the run reports; it ends where that machine ends, and fails exactly on a word it cannot execute. */
  lemma LoweredRunIsTheWordRun(
    words: seq<u32>, p: Program, g: Graph, entry: nat, budget: nat, s: ScalarValue)
    requires IsLoweringOf(words, p) && IsGraphOf(p, g) && entry < |g.blocks|
    ensures g.blocks[entry].first < |p.emissions|
    ensures ReportsWordRun(words, p, g, WordState(WordOf(p, g.blocks[entry].first), s, []),
                           ProgramRun(p, g, entry, budget, s))
  {
    hide IsLoweringOf, WordStep, WordRun, ProgramRun, Interpret, AllEffects, TotalSteps, CutsAtLeaders, WellTiled;
    hide Reached, BlockEffects;
    ProgramRunRefinesInterpreter(p, g, entry, budget, s);
    InterpreterIsTheWordRun(words, p, g.blocks[entry].first, s, budget, Log([], 0, 0));
  }
}
