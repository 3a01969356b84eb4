/** A lowered shader program, and linear lowering of a whole instruction stream. */
module ShaderProgram {
  import opened Machine
  import Rdna2
  import opened ShaderIr

  datatype Program = Program(sourceWordCount: u64, emissions: seq<Emission>)

  datatype ProgramErrorCode = DecodeFailure | InvalidInstructionExtent
  datatype ProgramError = ProgramError(
    code: ProgramErrorCode, wordIndex: nat, loweredCount: nat, decodeError: Option<Rdna2.DecodeError>)

  // ----- layout: what it means for a program to tile its source words -----

  /** The number of source words before emission `i`. */
  function StartOf(es: seq<Emission>, i: nat): (w: nat)
    requires i <= |es|
  {
    if i == 0 then 0 else StartOf(es, i - 1) + es[i - 1].source.wordCount
  }

  predicate EmissionTiled(p: Program, i: nat)
    requires i < |p.emissions|
  {
    var source := p.emissions[i].source;
    && source.wordCount > 0
    && source.wordIndex == StartOf(p.emissions, i)
    && source.wordIndex + source.wordCount <= p.sourceWordCount
    && source.wordIndex <= Rdna2.MAX_WORD_INDEX
    && source.byteOffset == 4 * source.wordIndex
  }

  /** The instructions cover the source words exactly, in order and without gaps. */
  ghost predicate WellTiled(p: Program) {
    && p.sourceWordCount < TWO63
    && (forall i :: 0 <= i < |p.emissions| ==> EmissionTiled(p, i))
    && StartOf(p.emissions, |p.emissions|) == p.sourceWordCount
  }

  // ----- greedy decoding of a stream, stated over instruction lengths alone -----

  /** `starts` follows the length table from word 0: each start is the previous one plus the length
      of the instruction found there. */
  ghost predicate IsChain(words: seq<u32>, starts: seq<nat>) {
    && |starts| > 0 && starts[0] == 0
    && (forall k :: 0 <= k < |starts| - 1 ==>
          starts[k] < |words| && starts[k + 1] == starts[k] + Rdna2.InstructionLength(words[starts[k]]))
  }

  ghost predicate ReachedBy(words: seq<u32>, starts: seq<nat>, w: nat) {
    IsChain(words, starts) && starts[|starts| - 1] == w
  }

  /** A start at which decoding cannot produce an instruction: a two-word instruction on the last
      word, or a start too far for its byte offset to be represented. */
  predicate Stuck(words: seq<u32>, w: nat) {
    w < |words| && (w > Rdna2.MAX_WORD_INDEX || w + Rdna2.InstructionLength(words[w]) > |words|)
  }

  /** Greedy decoding consumes the stream exactly. */
  ghost predicate Tiles(words: seq<u32>) {
    exists starts :: TiledBy(words, starts)
  }

  ghost predicate TiledBy(words: seq<u32>, starts: seq<nat>) {
    && ReachedBy(words, starts, |words|)
    && (forall k :: 0 <= k < |starts| ==> !Stuck(words, starts[k]))
  }

  /** Greedy decoding produces instructions up to `w` and cannot produce one there. */
  ghost predicate StuckAt(words: seq<u32>, w: nat) {
    exists starts :: StuckAfter(words, starts, w)
  }

  ghost predicate StuckAfter(words: seq<u32>, starts: seq<nat>, w: nat) {
    && ReachedBy(words, starts, w) && Stuck(words, w)
    && (forall k :: 0 <= k < |starts| - 1 ==> !Stuck(words, starts[k]))
  }

  /** The chain is determined by the words: one chain is a prefix of any longer one. */
  lemma {:induction false} ChainsAgree(words: seq<u32>, a: seq<nat>, b: seq<nat>, k: nat)
    requires IsChain(words, a) && IsChain(words, b)
    requires k < |a| && k < |b|
    ensures a[k] == b[k]
  {
    if k > 0 {
      ChainsAgree(words, a, b, k - 1);
    }
  }

  /** Decoding never both consumes the stream and gets stuck, and it gets stuck in at most one place. */
  lemma StuckExcludesTiling(words: seq<u32>, w: nat)
    requires StuckAt(words, w)
    ensures !Tiles(words)
    ensures forall v :: StuckAt(words, v) ==> v == w
  {
    var a :| StuckAfter(words, a, w);
    forall b | TiledBy(words, b)
      ensures false
    {
      if |a| <= |b| {
        ChainsAgree(words, a, b, |a| - 1);
      } else {
        ChainsAgree(words, a, b, |b| - 1);
      }
    }
    forall v | StuckAt(words, v)
      ensures v == w
    {
      var c :| StuckAfter(words, c, v);
      ChainsAgree(words, a, c, if |a| < |c| then |a| - 1 else |c| - 1);
    }
  }

  /** The source starts of a lowered program, with the end of the stream appended. */
  ghost function Starts(es: seq<Emission>, end: nat): (starts: seq<nat>)
    ensures |starts| == |es| + 1
  {
    seq(|es| + 1, k requires 0 <= k <= |es| => if k < |es| then es[k].source.wordIndex else end)
  }

  /** The emission is the lowering of the instruction decoded at its own start. */
  ghost predicate LoweredFrom(words: seq<u32>, e: Emission) {
    var decoded := Rdna2.DecodeInstruction(words, e.source.wordIndex);
    decoded.Ok? && e == Emission(LowerInstruction(decoded.value), decoded.value)
  }

  lemma {:induction false} PrefixStartOf(a: seq<Emission>, b: seq<Emission>, i: nat)
    requires i <= |a| && a <= b
    ensures StartOf(a, i) == StartOf(b, i)
  {
    if i > 0 {
      PrefixStartOf(a, b, i - 1);
    }
  }

  lemma PrefixStarts(a: seq<Emission>, b: seq<Emission>)
    requires a <= b
    ensures forall i :: 0 <= i <= |a| ==> StartOf(a, i) == StartOf(b, i)
  {
    forall i | 0 <= i <= |a|
      ensures StartOf(a, i) == StartOf(b, i)
    {
      PrefixStartOf(a, b, i);
    }
  }

  /** What the lowering loop has established when it stands at word `w`. */
  ghost predicate Progress(words: seq<u32>, es: seq<Emission>, w: nat) {
    && w <= |words| && w <= Rdna2.MAX_WORD_INDEX + 2
    && ReachedBy(words, Starts(es, w), w)
    && StartOf(es, |es|) == w
    && (forall k :: 0 <= k < |es| ==> EmittedAt(words, es, k))
  }

  ghost predicate EmittedAt(words: seq<u32>, es: seq<Emission>, k: nat)
    requires k < |es|
  {
    && LoweredFrom(words, es[k])
    && es[k].source.wordIndex == StartOf(es, k)
    && !Stuck(words, es[k].source.wordIndex)
  }

  lemma ProgressStep(words: seq<u32>, es: seq<Emission>, w: nat, e: Emission)
    requires Progress(words, es, w) && w < |words| && !Stuck(words, w)
    requires LoweredFrom(words, e) && e.source.wordIndex == w
    requires e.source.wordCount == Rdna2.InstructionLength(words[w])
    ensures Progress(words, es + [e], w + e.source.wordCount)
  {
    hide LoweredFrom, Rdna2.InstructionLength;
    var es', w' := es + [e], w + e.source.wordCount;
    PrefixStarts(es, es');
    var before, after := Starts(es, w), Starts(es', w');
    assert forall k :: 0 <= k <= |es| ==> after[k] == before[k];
    forall k | 0 <= k < |es'|
      ensures EmittedAt(words, es', k)
    {
      if k < |es| {
        assert EmittedAt(words, es, k);
      }
    }
  }

  lemma ProgressTiles(words: seq<u32>, es: seq<Emission>)
    requires Progress(words, es, |words|)
    ensures IsLoweringOf(words, Program(|words|, es))
  {
    hide LoweredFrom;
    forall k | 0 <= k < |es|
      ensures !Stuck(words, es[k].source.wordIndex) && LoweredFrom(words, es[k])
    {
      assert EmittedAt(words, es, k);
    }
  }

  lemma ProgressStuck(words: seq<u32>, es: seq<Emission>, w: nat)
    requires Progress(words, es, w) && Stuck(words, w)
    ensures StuckAt(words, w) && !Tiles(words)
  {
    forall k | 0 <= k < |es|
      ensures !Stuck(words, es[k].source.wordIndex)
    {
      assert EmittedAt(words, es, k);
    }
    assert StuckAfter(words, Starts(es, w), w);
    StuckExcludesTiling(words, w);
  }

  /** `p` is the greedy decoding of `words`. */
  ghost predicate IsLoweringOf(words: seq<u32>, p: Program) {
    && p.sourceWordCount == |words|
    && TiledBy(words, Starts(p.emissions, |words|))
    && (forall k :: 0 <= k < |p.emissions| ==> LoweredFrom(words, p.emissions[k]))
  }

  /** `lower_rdna2_stream_to_shader_ir`. */
  method LowerStream(words: seq<u32>) returns (r: Result<Program, ProgramError>)
    ensures r.Ok? <==> Tiles(words)
    ensures r.Ok? ==> IsLoweringOf(words, r.value) && WellTiled(r.value)
    ensures r.Err? ==> StuckAt(words, r.error.wordIndex) && r.error.code == DecodeFailure
    ensures r.Err? ==>
              r.error.decodeError == Some(Rdna2.DecodeError(
                if r.error.wordIndex > Rdna2.MAX_WORD_INDEX then Rdna2.SourceOffsetOverflow
                else Rdna2.InstructionOutOfBounds,
                if r.error.wordIndex > Rdna2.MAX_WORD_INDEX then r.error.wordIndex else |words|, |words|))
  {
    hide Rdna2.DecodeInstruction, LowerInstruction, Rdna2.InstructionLength, IsChain, Starts, StartOf;
    var emissions: seq<Emission> := [];
    var wordIndex := 0;
    ProgressStart(words);
    while wordIndex < |words|
      invariant Progress(words, emissions, wordIndex)
    {
      Rdna2.DecodeMatchesLength(words, wordIndex);
      var decoded := Rdna2.DecodeInstruction(words, wordIndex);
      if decoded.Err? {
        ProgressStuck(words, emissions, wordIndex);
        return Err(ProgramError(DecodeFailure, wordIndex, |emissions|, Some(decoded.error)));
      }
      var instruction := decoded.value;
      // The extent check of the loop, word_count == 0 or word_count > remaining, never fires.
      assert 0 < instruction.wordCount <= |words| - wordIndex;
      var emission := Emission(LowerInstruction(instruction), instruction);
      ProgressStep(words, emissions, wordIndex, emission);
      emissions := emissions + [emission];
      wordIndex := wordIndex + instruction.wordCount;
    }
    r := Ok(Program(|words|, emissions));
    ProgressTiles(words, emissions);
    TiledProgram(r.value, words);
  }

  lemma ProgressStart(words: seq<u32>)
    ensures Progress(words, [], 0)
  {
  }

  /** Every program that stream lowering produces passes the layout check of the CFG builder. */
  lemma TiledProgram(p: Program, words: seq<u32>)
    requires p.sourceWordCount == |words|
    requires Progress(words, p.emissions, |words|)
    ensures WellTiled(p)
  {
    forall i | 0 <= i < |p.emissions|
      ensures EmissionTiled(p, i)
    {
      assert EmittedAt(words, p.emissions, i);
      Rdna2.DecodeMatchesLength(words, p.emissions[i].source.wordIndex);
    }
  }

  /** On lowered streams a branch displacement is always whole words, and it leads to the word
      after the branch plus the signed immediate. */
  lemma LoweredBranchDelta(words: seq<u32>, e: Emission)
    requires LoweredFrom(words, e) && IsBranch(e.operation)
    ensures e.operation.byteDelta % 4 == 0
    ensures e.source.wordIndex + e.operation.byteDelta / 4
         == e.source.wordIndex + 1 + Rdna2.Simm16(words[e.source.wordIndex])
  {
    Rdna2.DecodeMatchesLength(words, e.source.wordIndex);
    assert e.source.fields.Sopp?;
  }

  /** On lowered streams scalar moves name only registers that exist, so executing one cannot fail. */
  lemma LoweredMovesExecute(words: seq<u32>, e: Emission, s: ScalarValue)
    requires LoweredFrom(words, e) && IsMove(e.operation)
    ensures MoveResult(e.operation, s).Ok?
  {
    assert e.source.fields.Sop1?;
  }
}
