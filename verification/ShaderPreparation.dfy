/** Shader preparation: planning the pointer and register patches of a shader header, and applying
    them to guest memory. */
module ShaderPreparation {
  import opened Machine
  import opened GuestMemory
  import opened Patches

  const SUPPORTED_VERSION: u32 := 0x18
  const USER_DATA_FIELD: u64 := 0x08
  const CODE_FIELD: u64 := 0x10
  const CONTEXT_FIELD: u64 := 0x18
  const SHADER_FIELD: u64 := 0x20
  const SPECIALS_FIELD: u64 := 0x28
  const INPUT_FIELD: u64 := 0x30
  const OUTPUT_FIELD: u64 := 0x38
  const NESTED_COUNT: nat := 5
  const POINTER_WIDTH: nat := 8

  datatype Stage = PixelStage | GeometryStage | OtherStage

  /** The parsed shader binary, as far as planning reads it. */
  datatype Shader = Shader(
    header: seq<byte>, version: u32, stage: Option<Stage>, rawStage: byte,
    contextList: Option<u64>, shaderList: Option<u64>, registers: seq<u16>,
    declaredHeaderSize: u32, declaredTextSize: u32)

  datatype Request = Request(output: u64, header: u64, text: u64)

  datatype ErrorCode =
    | NullOutputPointer | UnsupportedVersion | UnsupportedStage | CodeMisaligned | CodeUnrepresentable
    | MissingRegisterList | UnsupportedRegisterPair | OutputAliasesInput | PointerOutOfBounds | PointerOverflow
    | AddressOverflow | RegisterListMismatch | UserDataTooSmall | PatchOverlap

  datatype Kind =
    | UserDataPointer | CodePointer | ContextPointer | ShaderPointer
    | SpecialsPointer | InputPointer | OutputPointer | NestedPointer(index: nat)
    | ProgramLow | ProgramHigh | OutputHandle

  datatype Patch = Patch(kind: Kind, write: Write)

  function Writes(ps: seq<Patch>): (ws: seq<Write>)
    ensures |ws| == |ps| && forall i :: 0 <= i < |ps| ==> ws[i] == ps[i].write
  {
    seq(|ps|, i requires 0 <= i < |ps| => ps[i].write)
  }

  // ----- self-relative pointers -----

  datatype Pointer = Pointer(field: u64, target: u64, fieldAddress: u64, targetAddress: u64)

  predicate FieldFits(header: seq<byte>, field: int) {
    0 <= field && field + POINTER_WIDTH <= |header|
  }

  function RawPointer(header: seq<byte>, field: int): (raw: nat)
    requires FieldFits(header, field)
    ensures raw < TWO64
  {
    Widths();
    FromLittleEndian(header[field..field + POINTER_WIDTH])
  }

  /** The field is null, or its target lies in the header and is a guest address. */
  predicate PointerFits(header: seq<byte>, base: u64, field: int)
    requires FieldFits(header, field)
  {
    var target := field + RawPointer(header, field);
    target == field || (target <= |header| && target < TWO64 && base + target < TWO64)
  }

  /** `resolve_self_relative_pointer`: None for a null pointer. */
  function ResolvePointer(header: seq<byte>, base: u64, field: u64): (r: Result<Option<Pointer>, ErrorCode>)
    ensures r.Ok? <==> FieldFits(header, field) && PointerFits(header, base, field)
    ensures r == Err(PointerOutOfBounds) <==>
            !FieldFits(header, field) || |header| < field + RawPointer(header, field) < TWO64
    ensures r == Err(PointerOverflow) <==> FieldFits(header, field) && field + RawPointer(header, field) >= TWO64
    ensures r.Ok? ==> (r.value.None? <==> RawPointer(header, field) == 0)
    ensures r.Ok? && r.value.Some? ==>
              && r.value.value.field == field
              && r.value.value.target == field + RawPointer(header, field) <= |header|
              && r.value.value.fieldAddress == base + field
              && r.value.value.targetAddress == base + field + RawPointer(header, field)
  {
    if field > |header| || |header| - field < POINTER_WIDTH then Err(PointerOutOfBounds)
    else
      var raw := RawPointer(header, field);
      if raw == 0 then Ok(None)
      else if field > U64_MAX - raw then Err(PointerOverflow)
      else
        var target := field + raw;
        if target > |header| then Err(PointerOutOfBounds)
        else if base > U64_MAX - field || base > U64_MAX - target then Err(AddressOverflow)
        else Ok(Some(Pointer(field, target, base + field, base + target)))
  }

  // ----- overlap -----

  /** `ranges_overlap`: a range whose end is not a 64-bit number counts as overlapping. */
  predicate RangesOverlap(a: u64, aSize: int, b: u64, bSize: int) {
    if aSize == 0 || bSize == 0 then false
    else if a > U64_MAX - aSize || b > U64_MAX - bSize then true
    else a < b + bSize && b < a + aSize
  }

  /** Two non-empty ranges overlap exactly when they share a byte or one of them ends past the last
      64-bit address. */
  lemma RangesOverlapMeans(a: u64, aSize: nat, b: u64, bSize: nat)
    ensures RangesOverlap(a, aSize, b, bSize) <==>
            && aSize > 0 && bSize > 0
            && (|| a + aSize >= TWO64 || b + bSize >= TWO64
                || exists x :: InSpan(a, aSize, x) && InSpan(b, bSize, x))
  {
    if RangesOverlap(a, aSize, b, bSize) && a + aSize < TWO64 && b + bSize < TWO64 {
      var x := if a < b then b else a;
      assert InSpan(a, aSize, x) && InSpan(b, bSize, x);
    }
  }

  predicate InSpan(a: int, size: int, x: int) { a <= x < a + size }

  predicate Clash(a: Patch, b: Patch) {
    RangesOverlap(a.write.address, |a.write.bytes|, b.write.address, |b.write.bytes|)
  }

  ghost predicate Apart(ps: seq<Patch>) {
    forall i, j :: 0 <= i < j < |ps| ==> !Clash(ps[i], ps[j])
  }

  lemma ApartIsDisjoint(ps: seq<Patch>)
    requires Apart(ps)
    ensures PairwiseDisjoint(Writes(ps))
  {
    forall i, j | 0 <= i < j < |ps|
      ensures Disjoint(Writes(ps)[i], Writes(ps)[j])
    {
      assert !Clash(ps[i], ps[j]);
    }
  }

  /** `append_patch`: None when the new patch clashes with an earlier one. */
  method AppendPatch(ps: seq<Patch>, p: Patch) returns (r: Option<seq<Patch>>)
    requires Apart(ps)
    ensures r.Some? <==> Apart(ps + [p])
    ensures r.Some? ==> r.value == ps + [p]
  {
    var i := 0;
    while i < |ps|
      invariant 0 <= i <= |ps|
      invariant forall k :: 0 <= k < i ==> !Clash(ps[k], p)
    {
      if RangesOverlap(ps[i].write.address, |ps[i].write.bytes|, p.write.address, |p.write.bytes|) {
        assert Clash((ps + [p])[i], (ps + [p])[|ps|]);
        return None;
      }
      i := i + 1;
    }
    return Some(ps + [p]);
  }

  function PointerPatch(kind: Kind, p: Pointer): (r: Patch) {
    Patch(kind, Write(p.fieldAddress, LittleEndian(8, p.targetAddress)))
  }

  function OptionalPatch(kind: Kind, p: Option<Pointer>): (r: seq<Patch>) {
    if p.Some? then [PointerPatch(kind, p.value)] else []
  }

  method AppendOptional(ps: seq<Patch>, kind: Kind, p: Option<Pointer>) returns (r: Option<seq<Patch>>)
    requires Apart(ps)
    ensures r.Some? <==> Apart(ps + OptionalPatch(kind, p))
    ensures r.Some? ==> r.value == ps + OptionalPatch(kind, p)
  {
    if p.None? {
      assert ps + [] == ps;
      return Some(ps);
    }
    r := AppendPatch(ps, PointerPatch(kind, p.value));
  }

  // ----- the patch list -----

  datatype Pointers = Pointers(
    userData: Option<Pointer>, context: Option<Pointer>, shader: Option<Pointer>,
    specials: Option<Pointer>, input: Option<Pointer>, output: Option<Pointer>, nested: seq<Option<Pointer>>)

  /** The pointers found in the header. */
  ghost predicate Resolved(shader: Shader, base: u64, p: Pointers) {
    && ResolvePointer(shader.header, base, USER_DATA_FIELD) == Ok(p.userData)
    && ResolvePointer(shader.header, base, CONTEXT_FIELD) == Ok(p.context)
    && ResolvePointer(shader.header, base, SHADER_FIELD) == Ok(p.shader)
    && ResolvePointer(shader.header, base, SPECIALS_FIELD) == Ok(p.specials)
    && ResolvePointer(shader.header, base, INPUT_FIELD) == Ok(p.input)
    && ResolvePointer(shader.header, base, OUTPUT_FIELD) == Ok(p.output)
    && p.context.Some? && p.shader.Some?
    && (p.userData.None? ==> p.nested == [])
    && (p.userData.Some? ==>
          && p.userData.value.target + NESTED_COUNT * POINTER_WIDTH <= |shader.header|
          && NestedAre(shader, base, p.userData.value, p.nested))
  }

  ghost predicate NestedIs(shader: Shader, base: u64, userData: Pointer, k: nat, p: Option<Pointer>) {
    && userData.target + k * POINTER_WIDTH < TWO64
    && ResolvePointer(shader.header, base, userData.target + k * POINTER_WIDTH) == Ok(p)
  }

  ghost predicate NestedAre(shader: Shader, base: u64, userData: Pointer, nested: seq<Option<Pointer>>) {
    |nested| == NESTED_COUNT && forall k :: 0 <= k < NESTED_COUNT ==> NestedIs(shader, base, userData, k, nested[k])
  }

  function NestedPatches(nested: seq<Option<Pointer>>, n: nat): (r: seq<Patch>)
    requires n <= |nested|
  {
    if n == 0 then [] else NestedPatches(nested, n - 1) + OptionalPatch(NestedPointer(n - 1), nested[n - 1])
  }

  function HeaderPointerPatches(base: u64, code: u64, p: Pointers): (r: seq<Patch>)
    requires p.context.Some? && p.shader.Some? && base + CODE_FIELD < TWO64
  {
    TopPatches(base, code, p) + NestedPatches(p.nested, |p.nested|)
  }

  /** The register values: the code address split into 256-byte units, low word then high byte. */
  function RegisterPatches(base: u64, list: u64, code: u64): (r: seq<Patch>)
    requires base + list + 12 < TWO64
  {
    [Patch(ProgramLow, Write(base + list + 4, LittleEndian(4, code / 0x100 % TWO32))),
     Patch(ProgramHigh, Write(base + list + 12, LittleEndian(4, code / 0x100_0000_0000 % 256)))]
  }

  function HandlePatch(request: Request): (r: Patch) {
    Patch(OutputHandle, Write(request.output, LittleEndian(8, request.header)))
  }

  /** Everything preparation will write, in order; the handle is published last. */
  function AllPatches(request: Request, list: u64, p: Pointers): (r: seq<Patch>)
    requires p.context.Some? && p.shader.Some?
    requires request.header + CODE_FIELD < TWO64 && request.header + list + 12 < TWO64
  {
    HeaderPointerPatches(request.header, request.text, p) + RegisterPatches(request.header, list, request.text)
    + [HandlePatch(request)]
  }

  /** The checks made before any pointer is looked at. */
  predicate ProfileOk(shader: Shader) {
    || (shader.stage == Some(PixelStage) && shader.rawStage == 1
        && |shader.registers| >= 2 && shader.registers[0] == 0x0008 && shader.registers[1] == 0x0009)
    || (shader.stage == Some(GeometryStage) && shader.rawStage == 2
        && |shader.registers| >= 2 && shader.registers[0] == 0x00c8 && shader.registers[1] == 0x00c9)
  }

  predicate Admissible(shader: Shader, request: Request) {
    && request.output != 0 && shader.version == SUPPORTED_VERSION && ProfileOk(shader)
    && request.text % 256 == 0 && request.text < 0x1_0000_0000_0000
    && shader.contextList.Some? && shader.shaderList.Some?
    && !RangesOverlap(request.output, 8, request.header, shader.declaredHeaderSize)
    && !RangesOverlap(request.output, 8, request.text, shader.declaredTextSize)
  }

  /** Which check a request fails first: a null output pointer, a version other than 0x18, a stage other
      than pixel (1) or geometry (2), code that is not 256-byte aligned or not 48-bit, a missing register
      list, a wrong register pair, an output inside header or text. */
  ghost predicate AdmissionIs(shader: Shader, request: Request, r: Option<ErrorCode>) {
    var pixel := shader.stage == Some(PixelStage) && shader.rawStage == 1;
    var geometry := shader.stage == Some(GeometryStage) && shader.rawStage == 2;
    var pair := if pixel then [0x0008, 0x0009] else [0x00c8, 0x00c9];
    && (r == Some(NullOutputPointer) <==> request.output == 0)
    && (request.output != 0 ==>
          && (r == Some(UnsupportedVersion) <==> shader.version != 0x18)
          && (shader.version == 0x18 ==>
                && (r == Some(UnsupportedStage) <==> !pixel && !geometry)
                && (pixel || geometry ==>
                      && (r == Some(CodeMisaligned) <==> request.text % 256 != 0)
                      && (request.text % 256 == 0 ==>
                            && (r == Some(CodeUnrepresentable) <==> request.text >= 0x1_0000_0000_0000)
                            && (request.text < 0x1_0000_0000_0000 ==>
                                  RegistersAdmitted(shader, request, pair, r))))))
  }

  ghost predicate RegistersAdmitted(shader: Shader, request: Request, pair: seq<int>, r: Option<ErrorCode>)
    requires |pair| == 2
  {
    && (r == Some(MissingRegisterList) <==> shader.contextList.None? || shader.shaderList.None?)
    && (shader.contextList.Some? && shader.shaderList.Some? ==>
          && (r == Some(UnsupportedRegisterPair) <==>
                |shader.registers| < 2 || shader.registers[0] != pair[0] || shader.registers[1] != pair[1])
          && (|shader.registers| >= 2 && shader.registers[0] == pair[0] && shader.registers[1] == pair[1] ==>
                (if || RangesOverlap(request.output, 8, request.header, shader.declaredHeaderSize)
                    || RangesOverlap(request.output, 8, request.text, shader.declaredTextSize)
                 then r == Some(OutputAliasesInput) else r == None)))
  }

  function CheckAdmissible(shader: Shader, request: Request): (r: Option<ErrorCode>)
    ensures r.None? <==> Admissible(shader, request)
    ensures AdmissionIs(shader, request, r)
  {
    var pixel := shader.stage == Some(PixelStage) && shader.rawStage == 1;
    var geometry := shader.stage == Some(GeometryStage) && shader.rawStage == 2;
    if request.output == 0 then Some(NullOutputPointer)
    else if shader.version != SUPPORTED_VERSION then Some(UnsupportedVersion)
    else if !pixel && !geometry then Some(UnsupportedStage)
    else if request.text % 256 != 0 then Some(CodeMisaligned)
    else if request.text / 0x1_0000_0000_0000 != 0 then Some(CodeUnrepresentable)
    else if shader.contextList.None? || shader.shaderList.None? then Some(MissingRegisterList)
    else if || |shader.registers| < 2
            || shader.registers[0] != (if pixel then 0x0008 else 0x00c8)
            || shader.registers[1] != (if pixel then 0x0009 else 0x00c9) then Some(UnsupportedRegisterPair)
    else if || RangesOverlap(request.output, 8, request.header, shader.declaredHeaderSize)
            || RangesOverlap(request.output, 8, request.text, shader.declaredTextSize) then Some(OutputAliasesInput)
    else None
  }

  /** What a successful plan is. */
  ghost predicate IsPlan(shader: Shader, request: Request, ps: seq<Patch>) {
    Admissible(shader, request) && exists p :: PlanFrom(shader, request, p, ps)
  }

  ghost predicate PlanFrom(shader: Shader, request: Request, p: Pointers, ps: seq<Patch>)
    requires shader.contextList.Some? && shader.shaderList.Some?
  {
    && Resolved(shader, request.header, p)
    && p.context.value.target == shader.contextList.value
    && p.shader.value.target == shader.shaderList.value
    && request.header + CODE_FIELD < TWO64 && request.header + shader.shaderList.value + 12 < TWO64
    && ps == AllPatches(request, shader.shaderList.value, p)
    && Apart(ps)
  }

  /** The six header pointers resolve, the register lists are where the parser found them, and the
      user data is large enough. */
  ghost predicate TopResolves(shader: Shader, base: u64)
    requires shader.contextList.Some? && shader.shaderList.Some?
  {
    var userData := ResolvePointer(shader.header, base, USER_DATA_FIELD);
    var context := ResolvePointer(shader.header, base, CONTEXT_FIELD);
    var registers := ResolvePointer(shader.header, base, SHADER_FIELD);
    && userData.Ok? && context.Ok? && registers.Ok?
    && context.value.Some? && context.value.value.target == shader.contextList.value
    && registers.value.Some? && registers.value.value.target == shader.shaderList.value
    && ResolvePointer(shader.header, base, SPECIALS_FIELD).Ok?
    && ResolvePointer(shader.header, base, INPUT_FIELD).Ok?
    && ResolvePointer(shader.header, base, OUTPUT_FIELD).Ok?
    && (userData.value.Some? ==>
          userData.value.value.target + NESTED_COUNT * POINTER_WIDTH <= |shader.header|)
  }

  /** The first thing wrong with the six header pointers, in the order they are looked at. */
  function TopProblem(shader: Shader, base: u64): (r: Option<ErrorCode>)
    requires shader.contextList.Some? && shader.shaderList.Some?
    ensures r.None? <==> TopResolves(shader, base)
  {
    hide ResolvePointer;
    var userData := ResolvePointer(shader.header, base, USER_DATA_FIELD);
    var context := ResolvePointer(shader.header, base, CONTEXT_FIELD);
    var registers := ResolvePointer(shader.header, base, SHADER_FIELD);
    if userData.Err? then Some(userData.error)
    else if context.Err? then Some(context.error)
    else if registers.Err? then Some(registers.error)
    else if || context.value.None? || context.value.value.target != shader.contextList.value
            || registers.value.None? || registers.value.value.target != shader.shaderList.value
    then Some(RegisterListMismatch)
    else
      var specials := ResolvePointer(shader.header, base, SPECIALS_FIELD);
      var input := ResolvePointer(shader.header, base, INPUT_FIELD);
      var output := ResolvePointer(shader.header, base, OUTPUT_FIELD);
      if specials.Err? then Some(specials.error)
      else if input.Err? then Some(input.error)
      else if output.Err? then Some(output.error)
      else if userData.value.Some? && userData.value.value.target + NESTED_COUNT * POINTER_WIDTH > |shader.header|
      then Some(UserDataTooSmall) else None
  }

  method ResolveTop(shader: Shader, base: u64) returns (r: Result<Pointers, ErrorCode>)
    requires shader.contextList.Some? && shader.shaderList.Some?
    ensures r.Ok? <==> TopResolves(shader, base)
    ensures r.Err? ==> TopProblem(shader, base) == Some(r.error)
    ensures r.Ok? ==>
              var p := r.value;
              && ResolvePointer(shader.header, base, USER_DATA_FIELD) == Ok(p.userData)
              && ResolvePointer(shader.header, base, CONTEXT_FIELD) == Ok(p.context)
              && ResolvePointer(shader.header, base, SHADER_FIELD) == Ok(p.shader)
              && ResolvePointer(shader.header, base, SPECIALS_FIELD) == Ok(p.specials)
              && ResolvePointer(shader.header, base, INPUT_FIELD) == Ok(p.input)
              && ResolvePointer(shader.header, base, OUTPUT_FIELD) == Ok(p.output)
              && p.context.Some? && p.context.value.target == shader.contextList.value
              && p.shader.Some? && p.shader.value.target == shader.shaderList.value
              && p.nested == []
              && (p.userData.Some? ==> p.userData.value.target + NESTED_COUNT * POINTER_WIDTH <= |shader.header|)
  {
    hide ResolvePointer;
    var userData := ResolvePointer(shader.header, base, USER_DATA_FIELD);
    if userData.Err? { return Err(userData.error); }
    var context := ResolvePointer(shader.header, base, CONTEXT_FIELD);
    if context.Err? { return Err(context.error); }
    var registers := ResolvePointer(shader.header, base, SHADER_FIELD);
    if registers.Err? { return Err(registers.error); }
    if || context.value.None? || registers.value.None?
       || context.value.value.target != shader.contextList.value
       || registers.value.value.target != shader.shaderList.value
    {
      return Err(RegisterListMismatch);
    }
    var specials := ResolvePointer(shader.header, base, SPECIALS_FIELD);
    if specials.Err? { return Err(specials.error); }
    var input := ResolvePointer(shader.header, base, INPUT_FIELD);
    if input.Err? { return Err(input.error); }
    var output := ResolvePointer(shader.header, base, OUTPUT_FIELD);
    if output.Err? { return Err(output.error); }
    if userData.value.Some? {
      var target := userData.value.value.target;
      if target > |shader.header| || |shader.header| - target < NESTED_COUNT * POINTER_WIDTH {
        return Err(UserDataTooSmall);
      }
    }
    return Ok(Pointers(userData.value, context.value, registers.value, specials.value, input.value, output.value, []));
  }

  /** The first nested pointer, after those in `nested`, that does not resolve or does not fit in. */
  ghost predicate NestedFault(
    shader: Shader, base: u64, userData: Pointer, start: seq<Patch>, nested: seq<Option<Pointer>>, e: ErrorCode)
  {
    var k := |nested|;
    && k < NESTED_COUNT && (forall j :: 0 <= j < k ==> NestedIs(shader, base, userData, j, nested[j]))
    && Apart(start + NestedPatches(nested, k)) && userData.target + k * POINTER_WIDTH < TWO64
    && (|| ResolvePointer(shader.header, base, userData.target + k * POINTER_WIDTH) == Err(e)
        || (e == PatchOverlap
            && exists p :: NestedIs(shader, base, userData, k, p)
                           && !Apart(start + NestedPatches(nested + [p], k + 1))))
  }

  /** The nested loop: resolve and append the five pointers inside the user data. */
  method AppendNested(shader: Shader, base: u64, userData: Pointer, start: seq<Patch>)
    returns (r: Result<(seq<Patch>, seq<Option<Pointer>>), ErrorCode>)
    requires Apart(start) && userData.target + NESTED_COUNT * POINTER_WIDTH <= |shader.header| < TWO64
    ensures r.Ok? ==>
              var (ps, nested) := r.value;
              && ps == start + NestedPatches(nested, |nested|) && Apart(ps)
              && NestedAre(shader, base, userData, nested)
    ensures r.Err? ==> exists nested :: NestedFault(shader, base, userData, start, nested, r.error)
  {
    hide ResolvePointer, Apart, NestedPatches, OptionalPatch;
    NestedNone();
    var ps := start;
    var nested: seq<Option<Pointer>> := [];
    var k := 0;
    assert start + [] == start;
    while k < NESTED_COUNT
      invariant 0 <= k <= NESTED_COUNT && |nested| == k
      invariant ps == start + NestedPatches(nested, k) && Apart(ps)
      invariant forall j :: 0 <= j < k ==> NestedIs(shader, base, userData, j, nested[j])
    {
      var one := ResolvePointer(shader.header, base, userData.target + k * POINTER_WIDTH);
      if one.Err? {
        assert NestedFault(shader, base, userData, start, nested, one.error);
        return Err(one.error);
      }
      var appended := AppendOptional(ps, NestedPointer(k), one.value);
      NestedStep(nested, one.value);
      var grown := nested + [one.value];
      assert ps + OptionalPatch(NestedPointer(k), one.value) == start + NestedPatches(grown, k + 1);
      if appended.None? {
        assert NestedIs(shader, base, userData, k, one.value);
        assert NestedFault(shader, base, userData, start, nested, PatchOverlap);
        return Err(PatchOverlap);
      }
      ps := appended.value;
      nested := grown;
      k := k + 1;
    }
    return Ok((ps, nested));
  }

  /** After such a fault no complete list of nested pointers fits in. */
  lemma NestedFaultExcludes(shader: Shader, base: u64, userData: Pointer, start: seq<Patch>,
                            nested: seq<Option<Pointer>>, e: ErrorCode, all: seq<Option<Pointer>>)
    requires NestedFault(shader, base, userData, start, nested, e) && NestedAre(shader, base, userData, all)
    ensures !Apart(start + NestedPatches(all, |all|))
  {
    hide ResolvePointer, Apart, NestedPatches;
    var k := |nested|;
    forall j | 0 <= j < k
      ensures all[j] == nested[j]
    {
      assert NestedIs(shader, base, userData, j, all[j]);
    }
    assert NestedIs(shader, base, userData, k, all[k]);
    var p :| NestedIs(shader, base, userData, k, p) && !Apart(start + NestedPatches(nested + [p], k + 1));
    if Apart(start + NestedPatches(all, |all|)) {
      NestedPrefix(start, all, nested + [p]);
    }
  }

  lemma NestedNone()
    ensures NestedPatches([], 0) == []
  {
  }

  lemma NestedStep(nested: seq<Option<Pointer>>, p: Option<Pointer>)
    ensures NestedPatches(nested + [p], |nested| + 1)
         == NestedPatches(nested, |nested|) + OptionalPatch(NestedPointer(|nested|), p)
  {
    NestedAgree(nested + [p], nested, |nested|);
  }

  /** The patches of the first `n` pointers depend on those pointers only. */
  lemma {:induction false} NestedAgree(a: seq<Option<Pointer>>, b: seq<Option<Pointer>>, n: nat)
    requires n <= |a| && n <= |b| && forall j :: 0 <= j < n ==> a[j] == b[j]
    ensures NestedPatches(a, n) == NestedPatches(b, n)
  {
    if n > 0 {
      NestedAgree(a, b, n - 1);
    }
  }

  lemma {:induction false} NestedPrefix(start: seq<Patch>, all: seq<Option<Pointer>>, some: seq<Option<Pointer>>)
    requires |some| <= |all| && (forall j :: 0 <= j < |some| ==> all[j] == some[j])
    requires Apart(start + NestedPatches(all, |all|))
    ensures Apart(start + NestedPatches(some, |some|))
  {
    NestedPrefixAt(start, all, |all|, |some|);
    NestedAgree(all, some, |some|);
  }

  lemma {:induction false} NestedPrefixAt(start: seq<Patch>, all: seq<Option<Pointer>>, n: nat, k: nat)
    requires k <= n <= |all| && Apart(start + NestedPatches(all, n))
    ensures Apart(start + NestedPatches(all, k))
    decreases n
  {
    hide Apart;
    if k < n {
      assert start + NestedPatches(all, n)
          == (start + NestedPatches(all, n - 1)) + OptionalPatch(NestedPointer(n - 1), all[n - 1]);
      ApartPrefix(start + NestedPatches(all, n - 1), OptionalPatch(NestedPointer(n - 1), all[n - 1]));
      NestedPrefixAt(start, all, n - 1, k);
    }
  }

  /** The top-level pointer patches, before the nested ones. */
  function TopPatches(base: u64, code: u64, p: Pointers): (r: seq<Patch>)
    requires base + CODE_FIELD < TWO64
  {
    OptionalPatch(UserDataPointer, p.userData)
    + [Patch(CodePointer, Write(base + CODE_FIELD, LittleEndian(8, code)))]
    + OptionalPatch(ContextPointer, p.context)
    + OptionalPatch(ShaderPointer, p.shader)
    + OptionalPatch(SpecialsPointer, p.specials)
    + OptionalPatch(InputPointer, p.input)
    + OptionalPatch(OutputPointer, p.output)
  }

  lemma ApartPrefix(a: seq<Patch>, b: seq<Patch>)
    requires Apart(a + b)
    ensures Apart(a)
  {
    forall i, j | 0 <= i < j < |a|
      ensures !Clash(a[i], a[j])
    {
      assert !Clash((a + b)[i], (a + b)[j]);
    }
  }

  lemma TopPrefixes(base: u64, code: u64, p: Pointers)
    requires base + CODE_FIELD < TWO64
    ensures Apart(TopPatches(base, code, p)) ==>
              var a := OptionalPatch(UserDataPointer, p.userData);
              var b := a + [Patch(CodePointer, Write(base + CODE_FIELD, LittleEndian(8, code)))];
              var c := b + OptionalPatch(ContextPointer, p.context);
              var d := c + OptionalPatch(ShaderPointer, p.shader);
              var e := d + OptionalPatch(SpecialsPointer, p.specials);
              var f := e + OptionalPatch(InputPointer, p.input);
              Apart(a) && Apart(b) && Apart(c) && Apart(d) && Apart(e) && Apart(f)
  {
    hide Apart, OptionalPatch, LittleEndian;
    if Apart(TopPatches(base, code, p)) {
      var a := OptionalPatch(UserDataPointer, p.userData);
      var b := a + [Patch(CodePointer, Write(base + CODE_FIELD, LittleEndian(8, code)))];
      var c := b + OptionalPatch(ContextPointer, p.context);
      var d := c + OptionalPatch(ShaderPointer, p.shader);
      var e := d + OptionalPatch(SpecialsPointer, p.specials);
      var f := e + OptionalPatch(InputPointer, p.input);
      ApartPrefix(f, OptionalPatch(OutputPointer, p.output));
      ApartPrefix(e, OptionalPatch(InputPointer, p.input));
      ApartPrefix(d, OptionalPatch(SpecialsPointer, p.specials));
      ApartPrefix(c, OptionalPatch(ShaderPointer, p.shader));
      ApartPrefix(b, OptionalPatch(ContextPointer, p.context));
      ApartPrefix(a, [Patch(CodePointer, Write(base + CODE_FIELD, LittleEndian(8, code)))]);
    }
  }

  method AppendTop(base: u64, code: u64, p: Pointers) returns (r: Result<seq<Patch>, ErrorCode>)
    ensures r.Ok? <==> base + CODE_FIELD < TWO64 && Apart(TopPatches(base, code, p))
    ensures r.Err? ==> r.error == if base + CODE_FIELD < TWO64 then PatchOverlap else AddressOverflow
    ensures r.Ok? ==> r.value == TopPatches(base, code, p)
  {
    hide Apart, OptionalPatch, LittleEndian;
    if base + CODE_FIELD < TWO64 {
      TopPrefixes(base, code, p);
    }
    ApartNone();
    var ps: seq<Patch> := [];
    assert ps + OptionalPatch(UserDataPointer, p.userData) == OptionalPatch(UserDataPointer, p.userData);
    var next := AppendOptional(ps, UserDataPointer, p.userData);
    ApartOne(UserDataPointer, p.userData);
    assert next.Some?;
    ps := next.value;
    if base > U64_MAX - CODE_FIELD { return Err(AddressOverflow); }
    next := AppendPatch(ps, Patch(CodePointer, Write(base + CODE_FIELD, LittleEndian(8, code))));
    if next.None? { return Err(PatchOverlap); }
    ps := next.value;
    next := AppendOptional(ps, ContextPointer, p.context);
    if next.None? { return Err(PatchOverlap); }
    ps := next.value;
    next := AppendOptional(ps, ShaderPointer, p.shader);
    if next.None? { return Err(PatchOverlap); }
    ps := next.value;
    next := AppendOptional(ps, SpecialsPointer, p.specials);
    if next.None? { return Err(PatchOverlap); }
    ps := next.value;
    next := AppendOptional(ps, InputPointer, p.input);
    if next.None? { return Err(PatchOverlap); }
    ps := next.value;
    next := AppendOptional(ps, OutputPointer, p.output);
    if next.None? { return Err(PatchOverlap); }
    assert next.value == TopPatches(base, code, p);
    return Ok(next.value);
  }

  lemma RegisterPrefixes(request: Request, list: u64, start: seq<Patch>)
    requires request.header + list + 12 < TWO64
    ensures var rs := RegisterPatches(request.header, list, request.text);
            && (start + [rs[0]]) + [rs[1]] == start + rs
            && (Apart(start + rs + [HandlePatch(request)]) ==>
                  Apart(start + [rs[0]]) && Apart((start + [rs[0]]) + [rs[1]]))
  {
    hide Apart, LittleEndian;
    var rs := RegisterPatches(request.header, list, request.text);
    assert (start + [rs[0]]) + [rs[1]] == start + rs;
    if Apart(start + rs + [HandlePatch(request)]) {
      ApartPrefix(start + rs, [HandlePatch(request)]);
      ApartPrefix(start + [rs[0]], [rs[1]]);
    }
  }

  method AppendRegistersAndHandle(request: Request, list: u64, start: seq<Patch>)
    returns (r: Result<seq<Patch>, ErrorCode>)
    requires Apart(start)
    ensures r.Ok? <==> request.header + list + 12 < TWO64
                       && Apart(start + RegisterPatches(request.header, list, request.text) + [HandlePatch(request)])
    ensures r.Ok? ==> r.value == start + RegisterPatches(request.header, list, request.text) + [HandlePatch(request)]
    ensures r.Err? ==> r.error == if request.header + list + 12 < TWO64 then PatchOverlap else AddressOverflow
  {
    hide Apart, LittleEndian;
    var base, code := request.header, request.text;
    if base + list + 12 < TWO64 {
      RegisterPrefixes(request, list, start);
    }
    if list > U64_MAX - 4 || list > U64_MAX - 8 || list + 8 > U64_MAX - 4 { return Err(AddressOverflow); }
    if base > U64_MAX - (list + 4) || base > U64_MAX - (list + 12) { return Err(AddressOverflow); }
    var next := AppendPatch(start, Patch(ProgramLow, Write(base + list + 4, LittleEndian(4, code / 0x100 % TWO32))));
    if next.None? { return Err(PatchOverlap); }
    var ps := next.value;
    next := AppendPatch(ps, Patch(ProgramHigh, Write(base + list + 12, LittleEndian(4, code / 0x100_0000_0000 % 256))));
    if next.None? { return Err(PatchOverlap); }
    ps := next.value;
    next := AppendPatch(ps, HandlePatch(request));
    if next.None? { return Err(PatchOverlap); }
    assert next.value == start + RegisterPatches(base, list, code) + [HandlePatch(request)];
    return Ok(next.value);
  }

  /** Every plan of this shader passes the stages that planning goes through. */
  lemma PlanPassesStages(shader: Shader, request: Request, p: Pointers, ps: seq<Patch>)
    requires Admissible(shader, request) && PlanFrom(shader, request, p, ps)
    ensures TopResolves(shader, request.header)
    ensures Apart(TopPatches(request.header, request.text, p))
    ensures Apart(HeaderPointerPatches(request.header, request.text, p))
  {
    hide ResolvePointer, Apart, RangesOverlap, NestedPatches, OptionalPatch, RegisterPatches, ProfileOk;
    var list := shader.shaderList.value;
    var top := TopPatches(request.header, request.text, p);
    var pointers := HeaderPointerPatches(request.header, request.text, p);
    var rest := RegisterPatches(request.header, list, request.text) + [HandlePatch(request)];
    assert ps == pointers + rest;
    ApartPrefix(pointers, rest);
    ApartPrefix(top, NestedPatches(p.nested, |p.nested|));
  }

  /** Why there is no plan, in the order the planner looks: an inadmissible request, a header pointer,
      overlapping top-level patches, a nested pointer, and last the register values and the handle. */
  ghost predicate Refuses(shader: Shader, request: Request, e: ErrorCode) {
    if !Admissible(shader, request) then CheckAdmissible(shader, request) == Some(e)
    else if TopProblem(shader, request.header).Some? then e == TopProblem(shader, request.header).value
    else exists p :: PatchesRefuse(shader, request, p, e)
  }

  ghost predicate PatchesRefuse(shader: Shader, request: Request, p: Pointers, e: ErrorCode)
    requires shader.contextList.Some? && shader.shaderList.Some?
  {
    var base, code, list := request.header, request.text, shader.shaderList.value;
    && TopIs(shader, base, p) && base + CODE_FIELD < TWO64
    && var top := TopPatches(base, code, p);
       if !Apart(top) then e == PatchOverlap
       else
         || (p.userData.Some? && exists nested :: NestedFault(shader, base, p.userData.value, top, nested, e))
         || (&& (if p.userData.Some? then NestedAre(shader, base, p.userData.value, p.nested) else p.nested == [])
             && var pointers := top + NestedPatches(p.nested, |p.nested|);
                if base + list + 12 >= TWO64 then e == AddressOverflow
                else e == PatchOverlap
                     && !Apart(pointers + RegisterPatches(base, list, code) + [HandlePatch(request)]))
  }

  ghost predicate TopIs(shader: Shader, base: u64, p: Pointers) {
    && ResolvePointer(shader.header, base, USER_DATA_FIELD) == Ok(p.userData)
    && ResolvePointer(shader.header, base, CONTEXT_FIELD) == Ok(p.context)
    && ResolvePointer(shader.header, base, SHADER_FIELD) == Ok(p.shader)
    && ResolvePointer(shader.header, base, SPECIALS_FIELD) == Ok(p.specials)
    && ResolvePointer(shader.header, base, INPUT_FIELD) == Ok(p.input)
    && ResolvePointer(shader.header, base, OUTPUT_FIELD) == Ok(p.output)
  }

  /** A resolved context pointer keeps the start of the header inside the address space. */
  lemma HeaderStartFits(shader: Shader, base: u64, p: Pointers)
    requires TopIs(shader, base, p) && p.context.Some?
    ensures base + CODE_FIELD < TWO64
  {
  }

  /** Such a refusal is final: there is no plan. */
  lemma RefusalExcludesPlans(
    shader: Shader, request: Request, p: Pointers, e: ErrorCode, q: Pointers, ps: seq<Patch>)
    requires Admissible(shader, request) && PatchesRefuse(shader, request, p, e)
    ensures !PlanFrom(shader, request, q, ps)
  {
    hide ResolvePointer, Apart, RangesOverlap, NestedPatches, OptionalPatch, RegisterPatches, ProfileOk, NestedFault;
    if PlanFrom(shader, request, q, ps) {
      PlanPassesStages(shader, request, q, ps);
      var base, code := request.header, request.text;
      var top := TopPatches(base, code, p);
      assert TopPatches(base, code, q) == top;
      if p.userData.Some? {
        if nested :| NestedFault(shader, base, p.userData.value, top, nested, e) {
          NestedFaultExcludes(shader, base, p.userData.value, top, nested, e, q.nested);
        } else {
          NestedUnique(shader, base, p);
        }
      }
    }
  }

  /** The patches for the pointers that were resolved. */
  method PlanPatches(shader: Shader, request: Request, found: Pointers)
    returns (r: Result<seq<Patch>, ErrorCode>, p: Pointers)
    requires |shader.header| < TWO64 && shader.contextList.Some? && shader.shaderList.Some?
    requires TopIs(shader, request.header, found) && found.nested == []
    requires found.context.Some? && found.context.value.target == shader.contextList.value
    requires found.shader.Some? && found.shader.value.target == shader.shaderList.value
    requires found.userData.Some? ==> found.userData.value.target + NESTED_COUNT * POINTER_WIDTH <= |shader.header|
    ensures r.Ok? ==> PlanFrom(shader, request, p, r.value)
    ensures r.Err? ==> PatchesRefuse(shader, request, p, r.error)
  {
    hide ResolvePointer, Apart, NestedPatches, OptionalPatch, RegisterPatches, NestedFault;
    p := found;
    var base, code := request.header, request.text;
    HeaderStartFits(shader, base, p);
    var top := AppendTop(base, code, p);
    if top.Err? { return Err(top.error), p; }
    var ps := top.value;
    if p.userData.Some? {
      var nested := AppendNested(shader, base, p.userData.value, ps);
      if nested.Err? { return Err(nested.error), p; }
      ps := nested.value.0;
      p := p.(nested := nested.value.1);
    } else {
      NoNested(ps, p);
    }
    assert ps == HeaderPointerPatches(base, code, p);
    var all := AppendRegistersAndHandle(request, shader.shaderList.value, ps);
    if all.Err? { return Err(all.error), p; }
    return Ok(all.value), p;
  }

  /** `plan_sce_agc_shader_preparation`: succeeds exactly when a plan exists, and says why otherwise. */
  method PlanPreparation(shader: Shader, request: Request) returns (r: Result<seq<Patch>, ErrorCode>)
    requires |shader.header| < TWO64
    ensures r.Ok? ==> IsPlan(shader, request, r.value)
    ensures r.Err? ==> forall ps :: !IsPlan(shader, request, ps)
    ensures r.Err? ==> Refuses(shader, request, r.error)
  {
    hide ResolvePointer, PatchesRefuse, PlanFrom, Admissible, TopProblem;
    var refusal := CheckAdmissible(shader, request);
    if refusal.Some? { return Err(refusal.value); }
    PlanNeedsLists(shader, request);
    var resolved := ResolveTop(shader, request.header);
    if resolved.Err? {
      forall p, ps
        ensures !PlanFrom(shader, request, p, ps)
      {
        if PlanFrom(shader, request, p, ps) {
          PlanPassesStages(shader, request, p, ps);
        }
      }
      return Err(resolved.error);
    }
    var p;
    r, p := PlanPatches(shader, request, resolved.value);
    if r.Err? {
      forall q, ps
        ensures !PlanFrom(shader, request, q, ps)
      {
        RefusalExcludesPlans(shader, request, p, r.error, q, ps);
      }
    }
  }

  lemma NestedUnique(shader: Shader, base: u64, p: Pointers)
    requires p.userData.Some? && NestedAre(shader, base, p.userData.value, p.nested)
    ensures forall other :: NestedAre(shader, base, p.userData.value, other) ==> other == p.nested
  {
    hide ResolvePointer;
    forall other | NestedAre(shader, base, p.userData.value, other)
      ensures other == p.nested
    {
      forall k | 0 <= k < NESTED_COUNT
        ensures other[k] == p.nested[k]
      {
        assert NestedIs(shader, base, p.userData.value, k, other[k]);
        assert NestedIs(shader, base, p.userData.value, k, p.nested[k]);
      }
    }
  }

  lemma NoNested(ps: seq<Patch>, p: Pointers)
    requires p.nested == []
    ensures ps + NestedPatches(p.nested, |p.nested|) == ps
  {
  }

  lemma ApartOne(kind: Kind, p: Option<Pointer>)
    ensures Apart(OptionalPatch(kind, p))
  {
  }

  lemma ApartNone()
    ensures Apart([])
  {
  }

  // ----- what a plan writes -----

  /** Every patch of the plan reads back unchanged once all of them are applied. */
  lemma PatchHolds(ps: seq<Patch>, m: Bytes, q: Patch)
    requires Apart(ps) && q in ps
    ensures ReadBytes(ApplyAll(m, Writes(ps)), q.write.address, |q.write.bytes|) == q.write.bytes
  {
    ApartIsDisjoint(ps);
    var i :| 0 <= i < |ps| && ps[i] == q;
    PatchReadsBack(m, Writes(ps), i);
  }

  lemma {:induction false} NestedMember(nested: seq<Option<Pointer>>, n: nat, k: nat)
    requires k < n <= |nested| && nested[k].Some?
    ensures PointerPatch(NestedPointer(k), nested[k].value) in NestedPatches(nested, n)
  {
    if k < n - 1 {
      NestedMember(nested, n - 1, k);
    }
  }

  lemma {:induction false} NestedOrigin(nested: seq<Option<Pointer>>, n: nat, q: Patch)
    requires n <= |nested| && q in NestedPatches(nested, n)
    ensures exists k :: 0 <= k < n && nested[k].Some? && q == PointerPatch(NestedPointer(k), nested[k].value)
  {
    if q in NestedPatches(nested, n - 1) {
      NestedOrigin(nested, n - 1, q);
    } else {
      assert nested[n - 1].Some? && q == PointerPatch(NestedPointer(n - 1), nested[n - 1].value);
    }
  }

  predicate InsideHeader(shader: Shader, base: u64, w: Write) {
    base <= w.address && w.address + |w.bytes| <= base + |shader.header|
  }

  lemma PointerInside(shader: Shader, base: u64, field: u64, kind: Kind, p: Option<Pointer>)
    requires ResolvePointer(shader.header, base, field) == Ok(p) && p.Some?
    ensures InsideHeader(shader, base, PointerPatch(kind, p.value).write)
    ensures p.value.fieldAddress == base + field
  {
  }

  lemma NestedInside(shader: Shader, base: u64, p: Pointers, q: Patch)
    requires Resolved(shader, base, p) && q in NestedPatches(p.nested, |p.nested|)
    ensures InsideHeader(shader, base, q.write)
  {
    hide ResolvePointer, InsideHeader, NestedPatches, LittleEndian;
    NestedOrigin(p.nested, |p.nested|, q);
    var k :| 0 <= k < |p.nested| && p.nested[k].Some? && q == PointerPatch(NestedPointer(k), p.nested[k].value);
    var target := p.userData.value.target;
    assert NestedIs(shader, base, p.userData.value, k, p.nested[k]);
    PointerInside(shader, base, target + k * POINTER_WIDTH, NestedPointer(k), p.nested[k]);
  }

  lemma TopInside(shader: Shader, base: u64, code: u64, p: Pointers, q: Patch)
    requires Resolved(shader, base, p) && base + CODE_FIELD < TWO64 && q in TopPatches(base, code, p)
    ensures InsideHeader(shader, base, q.write)
  {
    hide ResolvePointer, NestedAre, LittleEndian;
    if p.userData.Some? { PointerInside(shader, base, USER_DATA_FIELD, UserDataPointer, p.userData); }
    PointerInside(shader, base, CONTEXT_FIELD, ContextPointer, p.context);
    PointerInside(shader, base, SHADER_FIELD, ShaderPointer, p.shader);
    if p.specials.Some? { PointerInside(shader, base, SPECIALS_FIELD, SpecialsPointer, p.specials); }
    if p.input.Some? { PointerInside(shader, base, INPUT_FIELD, InputPointer, p.input); }
    if p.output.Some? { PointerInside(shader, base, OUTPUT_FIELD, OutputPointer, p.output); }
  }

  /** The handle is published last, and every earlier patch lies inside the header exactly when the
      first two shader registers do. */
  lemma PatchesStayInHeader(shader: Shader, request: Request, ps: seq<Patch>)
    requires IsPlan(shader, request, ps)
    ensures |ps| > 0 && ps[|ps| - 1] == HandlePatch(request)
    ensures (forall i :: 0 <= i < |ps| - 1 ==> InsideHeader(shader, request.header, ps[i].write))
       <==> shader.shaderList.value + 16 <= |shader.header|
  {
    hide Apart, LittleEndian, ResolvePointer, NestedAre, Admissible, NestedPatches, TopPatches, InsideHeader;
    PlanNeedsLists(shader, request);
    var p :| PlanFrom(shader, request, p, ps);
    var base, code, list := request.header, request.text, shader.shaderList.value;
    var pointers := HeaderPointerPatches(base, code, p);
    var registers := RegisterPatches(base, list, code);
    RegistersInside(shader, base, list, code);
    assert ps[|pointers|] == registers[0] && ps[|pointers| + 1] == registers[1];
    forall i | 0 <= i < |pointers|
      ensures InsideHeader(shader, base, ps[i].write)
    {
      var q := ps[i];
      assert q in pointers;
      if q in TopPatches(base, code, p) {
        TopInside(shader, base, code, p, q);
      } else {
        NestedInside(shader, base, p, q);
      }
    }
  }

  // ----- register lists -----

  datatype ListError = ListOverflow | ListOutOfBounds

  /** A register list as the shader binary parser reads it: its place in the header, if it has any
      entries, and the register offsets in order. */
  datatype RegisterList = RegisterList(offset: Option<u64>, registers: seq<u16>)

  function RecordRegister(header: seq<byte>, at: nat): (r: u16)
    requires at + 2 <= |header|
  {
    Widths();
    FromLittleEndian(header[at..at + 2])
  }

  /** `parse_register_list`: a list with entries lies inside the header as a whole. */
  method ParseRegisterList(header: seq<byte>, field: u64, countField: nat) returns (r: Result<RegisterList, ListError>)
    requires FieldFits(header, field) && countField < |header|
    ensures var count: nat, list: nat := header[countField], field + FromLittleEndian(header[field..field + 8]);
            && (r.Ok? <==> count == 0 || (list + 8 * count < TWO64 && list + 8 * count <= |header|))
            && (r == Err(ListOverflow) <==> count != 0 && list + 8 * count >= TWO64)
            && (r.Ok? && count == 0 ==> r.value == RegisterList(None, []))
            && (r.Ok? && count != 0 ==>
                  && r.value.offset == Some(list) && |r.value.registers| == count
                  && list + 8 * count <= |header|
                  && forall i :: 0 <= i < count ==>
                       r.value.registers[i] == FromLittleEndian(header[list + 8 * i..list + 8 * i + 2]))
  {
    hide FromLittleEndian;
    var count: nat := header[countField];
    if count == 0 {
      return Ok(RegisterList(None, []));
    }
    var raw := RawPointer(header, field);
    if field > U64_MAX - raw {
      return Err(ListOverflow);
    }
    var list, size := field + raw, count * 8;
    if list > U64_MAX - size {
      return Err(ListOverflow);
    }
    if list > |header| || list + size > |header| {
      return Err(ListOutOfBounds);
    }
    var registers: seq<u16> := [];
    while |registers| < count
      invariant |registers| <= count
      invariant forall i :: 0 <= i < |registers| ==> registers[i] == RecordRegister(header, list + 8 * i)
    {
      registers := registers + [RecordRegister(header, list + 8 * |registers|)];
    }
    return Ok(RegisterList(Some(list), registers));
  }

  /** The shader's register list is one that `ParseRegisterList` accepted. */
  predicate ParsedRegisters(shader: Shader) {
    match shader.shaderList
    case None => shader.registers == []
    case Some(list) => list + 8 * |shader.registers| <= |shader.header|
  }

  /** For parsed shaders every patch but the handle lies inside the header. */
  lemma ParsedPatchesStayInHeader(shader: Shader, request: Request, ps: seq<Patch>)
    requires IsPlan(shader, request, ps) && ParsedRegisters(shader)
    ensures |ps| > 0 && forall i :: 0 <= i < |ps| - 1 ==> InsideHeader(shader, request.header, ps[i].write)
  {
    hide PlanFrom, InsideHeader, RangesOverlap;
    PatchesStayInHeader(shader, request, ps);
  }

  // ----- a plan that leaves the header -----

  /** A 72-byte header whose shader list is said to start at its end. */
  const STRAY_HEADER: seq<byte> := seq(72, i => if i == 0x18 || i == 0x20 then 0x28 else 0)

  const STRAY_SHADER: Shader :=
    Shader(STRAY_HEADER, SUPPORTED_VERSION, Some(PixelStage), 1, Some(0x40), Some(0x48), [0x0008, 0x0009], 72, 0x100)

  const STRAY_REQUEST: Request := Request(0x9000, 0x1000, 0x2000)

  lemma SmallWord(s: seq<byte>)
    requires |s| == 8 && forall i :: 1 <= i < 8 ==> s[i] == 0
    ensures FromLittleEndian(s) == s[0]
  {
    AllZero(s[1..]);
  }

  lemma {:induction false} AllZero(s: seq<byte>)
    requires forall i :: 0 <= i < |s| ==> s[i] == 0
    ensures FromLittleEndian(s) == 0
  {
    if s != [] {
      AllZero(s[1..]);
    }
  }

  lemma StrayPointer(field: u64)
    requires IsPointerField(field)
    ensures var r := ResolvePointer(STRAY_HEADER, 0x1000, field);
            if field == CONTEXT_FIELD || field == SHADER_FIELD
            then r == Ok(Some(Pointer(field, field + 0x28, 0x1000 + field, 0x1028 + field)))
            else r == Ok(None)
  {
    hide FromLittleEndian;
    SmallWord(STRAY_HEADER[field..field + 8]);
  }

  /** Without the parser's guarantee planning succeeds here and writes past the end of the header. */
  lemma UnparsedListLeavesHeader()
    ensures exists ps: seq<Patch> ::
              && IsPlan(STRAY_SHADER, STRAY_REQUEST, ps) && |ps| == 6
              && !InsideHeader(STRAY_SHADER, STRAY_REQUEST.header, ps[3].write)
              && !InsideHeader(STRAY_SHADER, STRAY_REQUEST.header, ps[4].write)
  {
    hide LittleEndian, ResolvePointer;
    StrayPointer(USER_DATA_FIELD);
    StrayPointer(CONTEXT_FIELD);
    StrayPointer(SHADER_FIELD);
    StrayPointer(SPECIALS_FIELD);
    StrayPointer(INPUT_FIELD);
    StrayPointer(OUTPUT_FIELD);
    var context := Pointer(0x18, 0x40, 0x1018, 0x1040);
    var registers := Pointer(0x20, 0x48, 0x1020, 0x1048);
    var p := Pointers(None, Some(context), Some(registers), None, None, None, []);
    var ps := [Patch(CodePointer, Write(0x1010, LittleEndian(8, 0x2000))),
               PointerPatch(ContextPointer, context), PointerPatch(ShaderPointer, registers)]
              + RegisterPatches(0x1000, 0x48, 0x2000) + [HandlePatch(STRAY_REQUEST)];
    assert NestedPatches([], 0) == [];
    assert ps == AllPatches(STRAY_REQUEST, 0x48, p);
    assert Resolved(STRAY_SHADER, 0x1000, p);
    assert PlanFrom(STRAY_SHADER, STRAY_REQUEST, p, ps);
    assert IsPlan(STRAY_SHADER, STRAY_REQUEST, ps);
  }

  lemma PlanNeedsLists(shader: Shader, request: Request)
    requires Admissible(shader, request)
    ensures shader.contextList.Some? && shader.shaderList.Some? && request.text < 0x1_0000_0000_0000
    ensures request.text % 256 == 0
  {
  }

  lemma RegistersInside(shader: Shader, base: u64, list: u64, code: u64)
    requires base + list + 12 < TWO64
    ensures var rs := RegisterPatches(base, list, code);
            (InsideHeader(shader, base, rs[0].write) && InsideHeader(shader, base, rs[1].write))
            <==> list + 16 <= |shader.header|
  {
    hide LittleEndian;
  }

  /** The word held in memory at an address. */
  function WordAt(m: Bytes, a: int, n: nat): (r: nat)
  {
    FromLittleEndian(ReadBytes(m, a, n))
  }

  /** A non-null pointer of the original header now holds its absolute target. */
  ghost predicate Relocated(shader: Shader, base: u64, m: Bytes, field: int) {
    && 0 <= field && field + 8 <= |shader.header|
    && var raw := FromLittleEndian(shader.header[field..field + 8]);
       (raw != 0 ==> FromLittleEndian(ReadBytes(m, base + field, 8)) == base + field + raw)
  }

  lemma FieldRelocated(shader: Shader, base: u64, ps: seq<Patch>, m: Bytes, field: u64, kind: Kind, p: Option<Pointer>)
    requires Apart(ps) && ResolvePointer(shader.header, base, field) == Ok(p)
    requires p.Some? ==> PointerPatch(kind, p.value) in ps
    ensures Relocated(shader, base, ApplyAll(m, Writes(ps)), field)
  {
    hide Apart, ApplyAll, LittleEndian, ReadBytes, FromLittleEndian;
    if p.Some? {
      PatchHolds(ps, m, PointerPatch(kind, p.value));
      Fits64(p.value.targetAddress);
      DecodeEncode(8, p.value.targetAddress);
    }
  }

  /** The six pointer fields at the start of the header. */
  predicate IsPointerField(field: int) {
    field == 0x08 || field == 0x18 || field == 0x20 || field == 0x28 || field == 0x30 || field == 0x38
  }

  lemma TopRelocated(shader: Shader, request: Request, p: Pointers, ps: seq<Patch>, m: Bytes, field: u64)
    requires shader.contextList.Some? && shader.shaderList.Some?
    requires PlanFrom(shader, request, p, ps) && IsPointerField(field)
    ensures Relocated(shader, request.header, ApplyAll(m, Writes(ps)), field)
  {
    hide Apart, ApplyAll, LittleEndian, ResolvePointer, NestedPatches, Relocated, NestedAre, RegisterPatches;
    var base := request.header;
    var top := TopPatches(base, request.text, p);
    assert forall q :: q in top ==> q in ps;
    if field == USER_DATA_FIELD {
      FieldRelocated(shader, base, ps, m, field, UserDataPointer, p.userData);
    } else if field == CONTEXT_FIELD {
      FieldRelocated(shader, base, ps, m, field, ContextPointer, p.context);
    } else if field == SHADER_FIELD {
      FieldRelocated(shader, base, ps, m, field, ShaderPointer, p.shader);
    } else if field == SPECIALS_FIELD {
      FieldRelocated(shader, base, ps, m, field, SpecialsPointer, p.specials);
    } else if field == INPUT_FIELD {
      FieldRelocated(shader, base, ps, m, field, InputPointer, p.input);
    } else {
      FieldRelocated(shader, base, ps, m, field, OutputPointer, p.output);
    }
  }

  lemma NestedRelocated(shader: Shader, request: Request, p: Pointers, ps: seq<Patch>, m: Bytes, k: nat)
    requires shader.contextList.Some? && shader.shaderList.Some?
    requires PlanFrom(shader, request, p, ps) && k < NESTED_COUNT && p.userData.Some?
    ensures Relocated(shader, request.header, ApplyAll(m, Writes(ps)), p.userData.value.target + k * POINTER_WIDTH)
  {
    hide Apart, ApplyAll, LittleEndian, ResolvePointer, NestedPatches, Relocated, TopPatches, RegisterPatches;
    var base := request.header;
    assert NestedIs(shader, base, p.userData.value, k, p.nested[k]);
    assert forall q :: q in NestedPatches(p.nested, |p.nested|) ==> q in ps;
    if p.nested[k].Some? {
      NestedMember(p.nested, |p.nested|, k);
    }
    FieldRelocated(shader, base, ps, m, p.userData.value.target + k * POINTER_WIDTH, NestedPointer(k), p.nested[k]);
  }

  /** The user-data block and the pointers inside it. */
  ghost predicate NestedRelocations(shader: Shader, base: u64, m: Bytes) {
    |shader.header| >= 0x10
    && var raw := FromLittleEndian(shader.header[0x08..0x10]);
       (raw != 0 ==> forall k :: 0 <= k < 5 ==> Relocated(shader, base, m, 0x08 + raw + k * 8))
  }

  /** The code pointer, the two register values and the published handle. */
  ghost predicate RegistersHold(shader: Shader, request: Request, m: Bytes)
    requires shader.shaderList.Some?
  {
    var registers := request.header + shader.shaderList.value;
    && WordAt(m, request.header + 0x10, 8) == request.text
    && (WordAt(m, registers + 12, 4) * TWO32 + WordAt(m, registers + 4, 4)) * 256 == request.text
    && WordAt(m, request.output, 8) == request.header
  }

  lemma WordHolds(ps: seq<Patch>, m: Bytes, kind: Kind, address: u64, n: nat, v: nat)
    requires Apart(ps) && v < Pow256(n) && Patch(kind, Write(address, LittleEndian(n, v))) in ps
    ensures WordAt(ApplyAll(m, Writes(ps)), address, n) == v
  {
    hide Apart, ApplyAll, LittleEndian, ReadBytes, FromLittleEndian;
    PatchHolds(ps, m, Patch(kind, Write(address, LittleEndian(n, v))));
    DecodeEncode(n, v);
  }

  /** The two register words determine a 256-byte aligned 48-bit code address. */
  lemma SplitAddress(code: u64)
    requires code % 256 == 0 && code < 0x1_0000_0000_0000
    ensures (code / 0x100_0000_0000 % 256 * TWO32 + code / 0x100 % TWO32) * 256 == code
  {
    var units := code / 0x100;
    assert code == units * 0x100 && units < 0x100_0000_0000;
    assert code / 0x100_0000_0000 == units / TWO32;
  }

  lemma RegistersAreWritten(shader: Shader, request: Request, p: Pointers, ps: seq<Patch>, m: Bytes)
    requires Admissible(shader, request) && PlanFrom(shader, request, p, ps)
    ensures RegistersHold(shader, request, ApplyAll(m, Writes(ps)))
  {
    hide Apart, ApplyAll, LittleEndian, Resolved, Admissible, NestedPatches, WordAt;
    PlanNeedsLists(shader, request);
    var base, code, list := request.header, request.text, shader.shaderList.value;
    Widths();
    var rs := RegisterPatches(base, list, code);
    assert forall q :: q in rs ==> q in ps;
    assert forall q :: q in TopPatches(base, code, p) ==> q in ps;
    assert rs[0] in ps && rs[1] in ps && HandlePatch(request) in ps;
    WordHolds(ps, m, CodePointer, base + CODE_FIELD, 8, code);
    WordHolds(ps, m, ProgramLow, base + list + 4, 4, code / 0x100 % TWO32);
    WordHolds(ps, m, ProgramHigh, base + list + 12, 4, code / 0x100_0000_0000 % 256);
    WordHolds(ps, m, OutputHandle, request.output, 8, base);
    SplitAddress(code);
  }

  /** What guest memory holds after any plan has been applied. */
  lemma PreparedMemory(shader: Shader, request: Request, ps: seq<Patch>, m: Bytes)
    requires IsPlan(shader, request, ps)
    ensures PairwiseDisjoint(Writes(ps))
    ensures var after := ApplyAll(m, Writes(ps));
            && (forall field :: IsPointerField(field) ==> Relocated(shader, request.header, after, field))
            && NestedRelocations(shader, request.header, after)
            && RegistersHold(shader, request, after)
            && (forall a :: Untouched(Writes(ps), a) ==> ByteOf(after, a) == ByteOf(m, a))
  {
    hide Apart, ApplyAll, LittleEndian, RegistersHold, Relocated, ByteOf, Untouched, NestedPatches, NestedAre;
    PlanNeedsLists(shader, request);
    var p :| PlanFrom(shader, request, p, ps);
    ApartIsDisjoint(ps);
    RegistersAreWritten(shader, request, p, ps, m);
    forall field: int | IsPointerField(field)
      ensures Relocated(shader, request.header, ApplyAll(m, Writes(ps)), field)
    {
      TopRelocated(shader, request, p, ps, m, field);
    }
    if p.userData.Some? {
      forall k | 0 <= k < NESTED_COUNT
        ensures Relocated(shader, request.header, ApplyAll(m, Writes(ps)), p.userData.value.target + k * POINTER_WIDTH)
      {
        NestedRelocated(shader, request, p, ps, m, k);
      }
    }
    forall a | Untouched(Writes(ps), a)
      ensures ByteOf(ApplyAll(m, Writes(ps)), a) == ByteOf(m, a)
    {
      OutsideUnchanged(m, Writes(ps), a);
    }
  }

  /** The patches of a plan may be written in any order. */
  lemma PreparationOrderIsFree(shader: Shader, request: Request, ps: seq<Patch>, qs: seq<Patch>, m: Bytes, a: int)
    requires IsPlan(shader, request, ps) && multiset(Writes(ps)) == multiset(Writes(qs))
    ensures ByteOf(ApplyAll(m, Writes(ps)), a) == ByteOf(ApplyAll(m, Writes(qs)), a)
  {
    ApartIsDisjoint(ps);
    OrderDoesNotMatter(m, Writes(ps), Writes(qs), a);
  }

  // ----- application -----

  datatype ApplyError = ApplyError(index: nat, applied: nat, memory: MemoryError)

  /** `apply_sce_agc_shader_preparation`: with fixed mappings the write phase cannot fail, so the
      header is either fully prepared or untouched. */
  method ApplyPreparation(ps: seq<Patch>, memory: GuestMemory) returns (r: Result<nat, ApplyError>)
    requires forall i :: 0 <= i < |ps| ==> |ps[i].write.bytes| < TWO64
    modifies memory`bytes
    ensures r.Ok? <==> AllWritable(memory.CurrentView(), Writes(ps))
    ensures r.Ok? ==> r.value == |ps| && memory.bytes == ApplyAll(old(memory.bytes), Writes(ps))
    ensures r.Err? ==>
              && memory.bytes == old(memory.bytes) && r.error.applied == 0 && r.error.index < |ps|
              && !Writable(memory.CurrentView(), ps[r.error.index].write)
              && AllWritable(memory.CurrentView(), Writes(ps[..r.error.index]))
  {
    hide AccessVerdict;
    ghost var v, ws := memory.CurrentView(), Writes(ps);
    var i := 0;
    while i < |ps|
      invariant 0 <= i <= |ps| && memory.bytes == old(memory.bytes)
      invariant forall k :: 0 <= k < i ==> Writable(v, ws[k])
    {
      var permitted := memory.PreflightWrite(ps[i].write.address, |ps[i].write.bytes|);
      if permitted.Err? {
        assert !Writable(v, ws[i]);
        assert forall k :: 0 <= k < i ==> Writes(ps[..i])[k] == ws[k];
        return Err(ApplyError(i, 0, permitted.error));
      }
      i := i + 1;
    }
    i := 0;
    while i < |ps|
      invariant 0 <= i <= |ps| && memory.CurrentView() == v
      invariant memory.bytes == ApplyAll(old(memory.bytes), ws[..i])
    {
      assert Writable(v, ws[i]);
      var written := memory.Write(ps[i].write.address, ps[i].write.bytes);
      // The write-failure exit is unreachable while the mappings do not change.
      assert written.Ok?;
      assert ws[..i + 1][..i] == ws[..i];
      i := i + 1;
    }
    assert ws[..i] == ws;
    return Ok(|ps|);
  }
}
