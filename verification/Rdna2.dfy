/** The RDNA 2 instruction decoder: format selection, field extraction and instruction length.

    Bit fields are taken with division and remainder: bits [hi:lo] of `w` are
    `w / 2^lo % 2^(hi-lo+1)`. */
module Rdna2 {
  import opened Machine

  datatype Kind =
    | SNop | SEndpgm | SBranch
    | SCbranchScc0 | SCbranchScc1 | SCbranchVccz | SCbranchVccnz | SCbranchExecz | SCbranchExecnz
    | SBarrier | SWaitcnt
    | SMovB32 | SMovB64 | VMovB32 | VAddF32 | ExpKind
    | UnknownSopp | UnknownSop1 | UnknownVop1 | UnknownVop2 | UnsupportedEncoding

  /** The decoded fields; the constructor is the instruction format. */
  datatype Fields =
    | Sopp(opcode: byte, simm16: int)
    | Sop1(opcode: byte, destination: byte, source: byte, literal: Option<u32>)
    | Vop1(opcode: byte, destination: byte, source0: u16, extension: Option<u32>)
    | Vop2(opcode: byte, destination: byte, source0: u16, source1: byte, extension: Option<u32>)
    | Exp(enableMask: byte, target: byte, compressed: bool, done: bool, validMask: bool, sources: seq<byte>)
    | Unclassified

  datatype Instruction = Instruction(
    wordIndex: u64, wordCount: u64, byteOffset: u64, rawWord: u32, kind: Kind, fields: Fields)

  datatype DecodeErrorCode = SourceOffsetOverflow | InstructionOutOfBounds
  datatype DecodeError = DecodeError(code: DecodeErrorCode, wordIndex: nat, availableWords: nat)

  const SOPP_ENCODING := 0x17f
  const SOP1_ENCODING := 0x17d
  const VOP1_ENCODING := 0x3f
  const EXP_ENCODING := 0x3e
  const MAX_WORD_INDEX: int := U64_MAX / 4

  function Bits(w: u32, shift: int, modulus: int): (r: int)
    requires shift > 0 && modulus > 0
    ensures 0 <= r < modulus
  {
    w / shift % modulus
  }

  function Simm16(w: u32): (r: int)
    ensures -0x8000 <= r < 0x8000
    ensures (r - w) % 0x1_0000 == 0
  {
    var bits := w % 0x1_0000;
    if bits < 0x8000 then bits else bits - 0x1_0000
  }

  function SoppKind(opcode: byte): (k: Kind) {
    match opcode
    case 0 => SNop
    case 1 => SEndpgm
    case 2 => SBranch
    case 4 => SCbranchScc0
    case 5 => SCbranchScc1
    case 6 => SCbranchVccz
    case 7 => SCbranchVccnz
    case 8 => SCbranchExecz
    case 9 => SCbranchExecnz
    case 10 => SBarrier
    case 12 => SWaitcnt
    case _ => UnknownSopp
  }

  function Sop1Kind(opcode: byte): (k: Kind) {
    if opcode == 3 then SMovB32 else if opcode == 4 then SMovB64 else UnknownSop1
  }

  predicate SourceHasExtension(selector: u16) {
    selector == 233 || selector == 234 || selector == 249 || selector == 250 || selector == 255
  }

  /** How many words the instruction starting with `w` occupies. This is the length table of the
      encoding alone; it never looks at the second word or at the end of the stream. */
  function InstructionLength(w: u32): (n: u64)
    ensures n == 1 || n == 2
  {
    if Bits(w, 0x400_0000, 64) == EXP_ENCODING then 2
    else if Bits(w, 0x80_0000, 512) == SOPP_ENCODING then 1
    else if Bits(w, 0x80_0000, 512) == SOP1_ENCODING then
      if Bits(w, 0x100, 256) == 3 && w % 256 == 255 then 2 else 1
    else if w < 0x8000_0000 && SourceHasExtension(w % 512) then 2
    else 1
  }

  /** The word after `i`, when the instruction at `i` needs one. */
  function Second(words: seq<u32>, i: nat, needed: bool): (r: Option<u32>)
    requires needed ==> i + 1 < |words|
  {
    if needed then Some(words[i + 1]) else None
  }

  function DecodeInstruction(words: seq<u32>, i: nat): (r: Result<Instruction, DecodeError>)
    ensures r.Ok? && r.value.fields.Sopp? ==> -0x8000 <= r.value.fields.simm16 < 0x8000
  {
    if i > MAX_WORD_INDEX then Err(DecodeError(SourceOffsetOverflow, i, |words|))
    else if i >= |words| then Err(DecodeError(InstructionOutOfBounds, i, |words|))
    else
      var w := words[i];
      var truncated := Err(DecodeError(InstructionOutOfBounds, i + 1, |words|));
      if Bits(w, 0x400_0000, 64) == EXP_ENCODING then
        if i + 1 >= |words| then truncated
        else
          var sources := words[i + 1];
          Ok(Instruction(i, 2, 4 * i, w, ExpKind,
                         Exp(w % 16, Bits(w, 16, 64), Bits(w, 0x400, 2) != 0, Bits(w, 0x800, 2) != 0,
                             Bits(w, 0x1000, 2) != 0,
                             [sources % 256, Bits(sources, 0x100, 256),
                              Bits(sources, 0x1_0000, 256), Bits(sources, 0x100_0000, 256)])))
      else if Bits(w, 0x80_0000, 512) == SOPP_ENCODING then
        var opcode := Bits(w, 0x1_0000, 128);
        Ok(Instruction(i, 1, 4 * i, w, SoppKind(opcode), Sopp(opcode, Simm16(w))))
      else if Bits(w, 0x80_0000, 512) == SOP1_ENCODING then
        var opcode := Bits(w, 0x100, 256);
        var source := w % 256;
        var kind := Sop1Kind(opcode);
        var extended := kind == SMovB32 && source == 255;
        if extended && i + 1 >= |words| then truncated
        else
          Ok(Instruction(i, if extended then 2 else 1, 4 * i, w, kind,
                         Sop1(opcode, Bits(w, 0x1_0000, 128), source, Second(words, i, extended))))
      else if Bits(w, 0x200_0000, 128) == VOP1_ENCODING then
        var opcode := Bits(w, 0x200, 256);
        var source := w % 512;
        var extended := SourceHasExtension(source);
        if extended && i + 1 >= |words| then truncated
        else
          Ok(Instruction(i, if extended then 2 else 1, 4 * i, w,
                         if opcode == 1 then VMovB32 else UnknownVop1,
                         Vop1(opcode, Bits(w, 0x2_0000, 256), source, Second(words, i, extended))))
      else if w < 0x8000_0000 then
        var opcode := Bits(w, 0x200_0000, 64);
        var source := w % 512;
        var extended := SourceHasExtension(source);
        if extended && i + 1 >= |words| then truncated
        else
          Ok(Instruction(i, if extended then 2 else 1, 4 * i, w,
                         if opcode == 3 then VAddF32 else UnknownVop2,
                         Vop2(opcode, Bits(w, 0x2_0000, 256), source, Bits(w, 0x200, 256),
                              Second(words, i, extended))))
      else
        Ok(Instruction(i, 1, 4 * i, w, UnsupportedEncoding, Unclassified))
  }

  /** VOP1's seven-bit encoding leaves bit 31 clear, so it shares VOP2's extension rule. */
  lemma Vop1HasClearTopBit(w: u32)
    requires Bits(w, 0x200_0000, 128) == VOP1_ENCODING
    ensures w < 0x8000_0000
  {
  }

  /** Decoding succeeds exactly when the whole instruction, by the length table, is inside the
      stream; the instruction then records where it lies. Otherwise the error names the first word
      that is missing. */
  lemma DecodeMatchesLength(words: seq<u32>, i: nat)
    ensures var r := DecodeInstruction(words, i);
            && (r.Ok? <==> i <= MAX_WORD_INDEX && i < |words| && i + InstructionLength(words[i]) <= |words|)
            && (r.Ok? ==> r.value.wordIndex == i && r.value.byteOffset == 4 * i
                          && r.value.wordCount == InstructionLength(words[i]) && r.value.rawWord == words[i])
            && (r.Err? ==>
                  if i > MAX_WORD_INDEX then r.error == DecodeError(SourceOffsetOverflow, i, |words|)
                  else r.error == DecodeError(InstructionOutOfBounds, |words|, |words|) || i > |words|)
  {
    if i <= MAX_WORD_INDEX && i < |words| {
      var w := words[i];
      if Bits(w, 0x200_0000, 128) == VOP1_ENCODING {
        Vop1HasClearTopBit(w);
      }
    }
  }
}
