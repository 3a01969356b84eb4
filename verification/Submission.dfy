/** The first-raster submission: one pass over a command buffer, a snapshot at its only draw, and the
    packet word that each reported register value came from. */
module Submission {
  import opened Machine
  import opened Pm4
  import opened PacketIr
  import opened Registers

  const PIXEL_LO: nat := 0x008
  const PIXEL_HI: nat := 0x009
  const GEOMETRY_LO: nat := 0x0c8
  const GEOMETRY_HI: nat := 0x0c9
  const TARGET_MASK: nat := 0x08e
  const TARGET_BASE: nat := 0x318
  const TARGET_INFO: nat := 0x31c
  const TARGET_BASE_EXT: nat := 0x390
  const TARGET_ATTRIB2: nat := 0x3b0
  const TARGET_ATTRIB3: nat := 0x3b8
  const PRIMITIVE_TYPE: nat := 0x242

  /** Where a value came from: frame index, first word of the packet, word of the value. */
  datatype Source = Source(frame: nat, packet: nat, value: nat)

  datatype Sources = Sources(
    geometryLo: Option<Source>, geometryHi: Option<Source>, pixelLo: Option<Source>, pixelHi: Option<Source>,
    primitive: Option<Source>, mask: Option<Source>, base: Option<Source>, info: Option<Source>,
    baseExt: Option<Source>, attrib2: Option<Source>, attrib3: Option<Source>)

  const NO_SOURCES: Sources := Sources(None, None, None, None, None, None, None, None, None, None, None)

  // ----- the specification: last writers -----

  /** Frame `f` writes register `r` of a bank. */
  predicate WritesTo(f: Frame, bank: Bank, r: nat) {
    Lower(f).Ok? && Hits(Lower(f).value, bank, r)
  }

  predicate Hits(op: Operation, bank: Bank, r: nat) {
    op.WriteRegisters? && op.bank == bank && op.start <= r < op.start + |op.values|
  }

  /** The last of the first `n` frames that writes a register. */
  function LastWriter(frames: seq<Frame>, n: nat, bank: Bank, r: nat): (j: Option<nat>)
    requires n <= |frames|
    ensures j.Some? ==> j.value < n && WritesTo(frames[j.value], bank, r)
    ensures j.Some? ==> forall k :: j.value < k < n ==> !WritesTo(frames[k], bank, r)
    ensures j.None? ==> forall k :: 0 <= k < n ==> !WritesTo(frames[k], bank, r)
  {
    hide WritesTo;
    if n == 0 then None
    else if WritesTo(frames[n - 1], bank, r) then Some(n - 1)
    else LastWriter(frames, n - 1, bank, r)
  }

  /** The word that the frame gives the register. */
  function SourceIn(f: Frame, index: nat, bank: Bank, r: nat): (s: Source)
    requires WritesTo(f, bank, r)
  {
    Source(index, f.offset, f.offset + 2 + r - Lower(f).value.start)
  }

  function SourceAt(frames: seq<Frame>, n: nat, bank: Bank, r: nat): (s: Option<Source>)
    requires n <= |frames|
  {
    var j := LastWriter(frames, n, bank, r);
    if j.Some? then Some(SourceIn(frames[j.value], j.value, bank, r)) else None
  }

  function SourcesAt(frames: seq<Frame>, n: nat): (s: Sources)
    requires n <= |frames|
  {
    Sources(
      SourceAt(frames, n, ShaderBank, GEOMETRY_LO), SourceAt(frames, n, ShaderBank, GEOMETRY_HI),
      SourceAt(frames, n, ShaderBank, PIXEL_LO), SourceAt(frames, n, ShaderBank, PIXEL_HI),
      SourceAt(frames, n, UserConfigBank, PRIMITIVE_TYPE),
      SourceAt(frames, n, ContextBank, TARGET_MASK), SourceAt(frames, n, ContextBank, TARGET_BASE),
      SourceAt(frames, n, ContextBank, TARGET_INFO), SourceAt(frames, n, ContextBank, TARGET_BASE_EXT),
      SourceAt(frames, n, ContextBank, TARGET_ATTRIB2), SourceAt(frames, n, ContextBank, TARGET_ATTRIB3))
  }

  /** A bank after the first `n` frames: the fold of all its writes. */
  function StateAt(frames: seq<Frame>, n: nat, bank: Bank): (s: State)
    requires n <= |frames|
  {
    if n == 0 then EmptyState() else After(StateAt(frames, n - 1, bank), frames[n - 1], bank)
  }

  function After(s: State, f: Frame, bank: Bank): (r: State) {
    match Lower(f)
    case Ok(WriteRegisters(b, start, values)) =>
      if b == bank && InWindow(start, |values|) then Written(s, start, values) else s
    case _ => s
  }

  predicate SetsInstances(f: Frame) { Lower(f).Ok? && Lower(f).value.SetInstances? }
  predicate Draws(f: Frame) { Lower(f).Ok? && Lower(f).value.DrawIndexAuto? }

  function LastInstances(frames: seq<Frame>, n: nat): (j: Option<nat>)
    requires n <= |frames|
    ensures j.Some? ==> j.value < n && SetsInstances(frames[j.value])
    ensures j.Some? ==> forall k :: j.value < k < n ==> !SetsInstances(frames[k])
    ensures j.None? ==> forall k :: 0 <= k < n ==> !SetsInstances(frames[k])
  {
    if n == 0 then None else if SetsInstances(frames[n - 1]) then Some(n - 1) else LastInstances(frames, n - 1)
  }

  function ControlSource(frames: seq<Frame>, j: nat): (s: Source)
    requires j < |frames|
  {
    Source(j, frames[j].offset, frames[j].offset + 1)
  }

  // ----- the last write is the state -----

  lemma LowerInWindow(f: Frame)
    requires Lower(f).Ok? && Lower(f).value.WriteRegisters?
    ensures InWindow(Lower(f).value.start, |Lower(f).value.values|)
    ensures |f.words| == |Lower(f).value.values| + 2
    ensures forall i :: 0 <= i < |Lower(f).value.values| ==> Lower(f).value.values[i] == WordValue(f.words[i + 2])
  {
    hide LowerRegisters;
  }

  /** A register is initialised exactly when some frame wrote it, and holds the last value written. */
  lemma {:induction false} StateIsLastWrite(frames: seq<Frame>, n: nat, bank: Bank, r: nat)
    requires n <= |frames| && r < WINDOW
    ensures var s, j := StateAt(frames, n, bank), LastWriter(frames, n, bank, r);
            && (s.initialized[r] <==> j.Some?)
            && (j.Some? ==> s.values[r] == Lower(frames[j.value]).value.values[r - Lower(frames[j.value]).value.start])
            && (j.None? ==> s.values[r] == 0)
  {
    hide Lower, InWindow;
    if n > 0 {
      StateIsLastWrite(frames, n - 1, bank, r);
      var f := frames[n - 1];
      if Lower(f).Ok? && Lower(f).value.WriteRegisters? {
        LowerInWindow(f);
      }
    }
  }

  /** The recorded source word holds the register's value. */
  lemma SourceHoldsValue(buffer: seq<byte>, frames: seq<Frame>, n: nat, bank: Bank, r: nat)
    requires Consecutive(buffer, frames) && n <= |frames| && r < WINDOW
    ensures var state, source := StateAt(frames, n, bank), SourceAt(frames, n, bank, r);
            && (state.initialized[r] <==> source.Some?)
            && (source.Some? ==> 4 * source.value.value + 4 <= |buffer|
                                 && WordAt(buffer, source.value.value) == state.values[r])
  {
    hide Lower, StateAt, LastWriter, FrameFits, WordValue;
    StateIsLastWrite(frames, n, bank, r);
    var j := LastWriter(frames, n, bank, r);
    if j.Some? {
      FrameWord(buffer, frames, j.value, bank, r);
    }
  }

  /** Word `2 + i` of a register packet is its `i`-th value. */
  lemma FrameWord(buffer: seq<byte>, frames: seq<Frame>, j: nat, bank: Bank, r: nat)
    requires Consecutive(buffer, frames) && j < |frames| && WritesTo(frames[j], bank, r)
    ensures var at := SourceIn(frames[j], j, bank, r).value;
            && 4 * at + 4 <= |buffer|
            && WordAt(buffer, at) == Lower(frames[j]).value.values[r - Lower(frames[j]).value.start]
  {
    hide Lower, WordValue;
    var f := frames[j];
    assert Placed(buffer, frames, j);
    LowerInWindow(f);
    var i := r - Lower(f).value.start;
    assert f.words[i + 2] == RawWordAt(buffer, f.offset + (i + 2));
  }

  // ----- what is decided from the snapshot -----

  datatype Snapshot = Snapshot(
    shader: State, context: State, userConfig: State, instances: u32, indices: u32, initiator: u32,
    sources: Sources, instancesSource: Source, drawSource: Source)

  datatype ColorTarget = ColorTarget(base: u64, mask: u32, info: u32, attrib2: u32, attrib3: u32)
  datatype DrawPlan = DrawPlan(primitive: u32, instances: u32, indices: u32, initiator: u32)
  datatype Plan = Plan(
    shader: State, context: State, userConfig: State, geometry: u64, pixel: u64,
    target: ColorTarget, draw: DrawPlan, sources: Sources, instancesSource: Source, drawSource: Source)

  datatype SubmissionError =
    | UnsupportedFlag(flag: u32) | FramingFailure(framing: FrameError)
    | HeaderControlBits(frame: nat) | LoweringFailure(frame: nat, lowering: LowerError)
    | ApplyFailure(frame: nat) | MultipleDraws(frame: nat) | MissingInstances(frame: nat) | MissingDraw
    | GeometryAddressFailure | PixelAddressFailure | DrawPlanFailure | ColorTargetFailure | ImageFailure
    | MissingProgramProvenance | MissingPrimitiveProvenance | MissingColorTargetProvenance

  /** The errors that some submission can meet. */
  predicate Reachable(e: SubmissionError) {
    && !e.ApplyFailure? && !e.MissingProgramProvenance?
    && !e.MissingPrimitiveProvenance? && !e.MissingColorTargetProvenance?
  }

  /** `resolve_*_program_address`: both halves written, only eight bits in the high half. */
  function ProgramAddress(s: State, lo: nat, hi: nat): (r: Option<u64>)
    requires lo < WINDOW && hi < WINDOW
    ensures r.Some? <==> s.initialized[lo] && s.initialized[hi] && s.values[hi] < 256
    ensures r.Some? ==> r.value == (s.values[hi] * TWO32 + s.values[lo]) * 256 < 0x1_0000_0000_0000
  {
    if !s.initialized[lo] || !s.initialized[hi] || s.values[hi] / 0x100 != 0 then None
    else
      var low: int, high: int := s.values[lo], s.values[hi] % 0x100;
      Some(low * 0x100 + high * 0x100_0000_0000)
  }

  /** `resolve_color_target0_context_state`, up to field extraction from the raw words. */
  function ResolveTarget(s: State): (r: Option<ColorTarget>)
    ensures r.Some? <==>
            && s.initialized[TARGET_MASK] && s.initialized[TARGET_BASE] && s.initialized[TARGET_BASE_EXT]
            && s.initialized[TARGET_INFO] && s.initialized[TARGET_ATTRIB2] && s.initialized[TARGET_ATTRIB3]
            && (s.values[TARGET_BASE_EXT] * TWO32 + s.values[TARGET_BASE]) * 256 < TWO64
    ensures r.Some? ==> r.value.base == (s.values[TARGET_BASE_EXT] * TWO32 + s.values[TARGET_BASE]) * 256
  {
    if || !s.initialized[TARGET_MASK] || !s.initialized[TARGET_BASE] || !s.initialized[TARGET_BASE_EXT]
       || !s.initialized[TARGET_INFO] || !s.initialized[TARGET_ATTRIB2] || !s.initialized[TARGET_ATTRIB3]
    then None
    else
      var unshifted := s.values[TARGET_BASE_EXT] * TWO32 + s.values[TARGET_BASE];
      if unshifted > U64_MAX / 0x100 then None
      else Some(ColorTarget(unshifted * 0x100, s.values[TARGET_MASK], s.values[TARGET_INFO],
                            s.values[TARGET_ATTRIB2], s.values[TARGET_ATTRIB3]))
  }

  /** `plan_first_raster_draw`: one instance of one automatic triangle list of three indices. */
  function PlanDraw(s: State, instances: u32, indices: u32, initiator: u32): (r: Option<DrawPlan>)
    ensures r.Some? <==> s.initialized[PRIMITIVE_TYPE]
                         && DrawPlan(s.values[PRIMITIVE_TYPE], instances, indices, initiator) == DrawPlan(4, 1, 3, 2)
    ensures r.Some? ==> r.value == DrawPlan(4, 1, 3, 2)
  {
    if || !s.initialized[PRIMITIVE_TYPE] || s.values[PRIMITIVE_TYPE] != 4
       || instances != 1 || indices != 3 || initiator != 2
    then None else Some(DrawPlan(s.values[PRIMITIVE_TYPE], instances, indices, initiator))
  }

  /** The checks made after the pass; `accepts` stands for planning the colour target's image. */
  function Decide(s: Snapshot, accepts: ColorTarget -> bool): (r: Result<Plan, SubmissionError>) {
    var geometry := ProgramAddress(s.shader, GEOMETRY_LO, GEOMETRY_HI);
    var pixel := ProgramAddress(s.shader, PIXEL_LO, PIXEL_HI);
    var draw := PlanDraw(s.userConfig, s.instances, s.indices, s.initiator);
    var target := ResolveTarget(s.context);
    if geometry.None? then Err(GeometryAddressFailure)
    else if pixel.None? then Err(PixelAddressFailure)
    else if || s.sources.geometryLo.None? || s.sources.geometryHi.None?
            || s.sources.pixelLo.None? || s.sources.pixelHi.None?
    then Err(MissingProgramProvenance)
    else if draw.None? then Err(DrawPlanFailure)
    else if target.None? then Err(ColorTargetFailure)
    else if !accepts(target.value) then Err(ImageFailure)
    else if s.sources.primitive.None? then Err(MissingPrimitiveProvenance)
    else if || s.sources.mask.None? || s.sources.base.None? || s.sources.info.None?
            || s.sources.baseExt.None? || s.sources.attrib2.None? || s.sources.attrib3.None?
    then Err(MissingColorTargetProvenance)
    else Ok(Plan(s.shader, s.context, s.userConfig, geometry.value, pixel.value, target.value, draw.value,
                 s.sources, s.instancesSource, s.drawSource))
  }

  /** A program address can be formed from these two registers. */
  predicate AddressFormed(s: State, lo: nat, hi: nat)
    requires lo < WINDOW && hi < WINDOW
  {
    s.initialized[lo] && s.initialized[hi] && s.values[hi] < 256
  }

  predicate TargetFormed(s: State) {
    && s.initialized[0x08e] && s.initialized[0x318] && s.initialized[0x31c]
    && s.initialized[0x390] && s.initialized[0x3b0] && s.initialized[0x3b8]
    && (s.values[0x390] * TWO32 + s.values[0x318]) * 256 < TWO64
  }

  function TargetValue(s: State): (t: ColorTarget)
    requires TargetFormed(s)
  {
    ColorTarget((s.values[0x390] * TWO32 + s.values[0x318]) * 256, s.values[0x08e], s.values[0x31c],
                s.values[0x3b0], s.values[0x3b8])
  }

  predicate DrawAccepted(s: Snapshot) {
    s.userConfig.initialized[0x242] && s.userConfig.values[0x242] == 4
    && s.instances == 1 && s.indices == 3 && s.initiator == 2
  }

  /** What the checks must answer, register by register: the first thing wrong, or a plan whose every
      part is named. */
  ghost predicate Decided(s: Snapshot, accepts: ColorTarget -> bool, r: Result<Plan, SubmissionError>) {
    var o := s.sources;
    if !AddressFormed(s.shader, 0x0c8, 0x0c9) then r == Err(GeometryAddressFailure)
    else if !AddressFormed(s.shader, 0x008, 0x009) then r == Err(PixelAddressFailure)
    else if !(o.geometryLo.Some? && o.geometryHi.Some? && o.pixelLo.Some? && o.pixelHi.Some?)
    then r == Err(MissingProgramProvenance)
    else if !DrawAccepted(s) then r == Err(DrawPlanFailure)
    else if !TargetFormed(s.context) then r == Err(ColorTargetFailure)
    else if !accepts(TargetValue(s.context)) then r == Err(ImageFailure)
    else if !o.primitive.Some? then r == Err(MissingPrimitiveProvenance)
    else if !(o.mask.Some? && o.base.Some? && o.info.Some? && o.baseExt.Some? && o.attrib2.Some? && o.attrib3.Some?)
    then r == Err(MissingColorTargetProvenance)
    else
      && r.Ok?
      && r.value.shader == s.shader && r.value.context == s.context && r.value.userConfig == s.userConfig
      && r.value.geometry == (s.shader.values[0x0c9] * TWO32 + s.shader.values[0x0c8]) * 256
      && r.value.pixel == (s.shader.values[0x009] * TWO32 + s.shader.values[0x008]) * 256
      && r.value.target == TargetValue(s.context) && r.value.draw == DrawPlan(4, 1, 3, 2)
      && r.value.sources == s.sources && r.value.instancesSource == s.instancesSource
      && r.value.drawSource == s.drawSource
  }

  lemma DecideMeans(s: Snapshot, accepts: ColorTarget -> bool)
    ensures Decided(s, accepts, Decide(s, accepts))
  {
  }

  /** The snapshot taken at frame `d`. */
  function SnapshotAt(frames: seq<Frame>, d: nat): (s: Snapshot)
    requires d < |frames| && Draws(frames[d]) && LastInstances(frames, d).Some?
  {
    var j := LastInstances(frames, d).value;
    var draw := Lower(frames[d]).value;
    Snapshot(StateAt(frames, d, ShaderBank), StateAt(frames, d, ContextBank), StateAt(frames, d, UserConfigBank),
             Lower(frames[j]).value.count, draw.indices, draw.initiator,
             SourcesAt(frames, d), ControlSource(frames, j), ControlSource(frames, d))
  }

  /** In a snapshot a register has a source exactly when it is initialised, so no provenance is ever
      missing once the registers have been decoded. */
  lemma ProvenanceIsNeverMissing(frames: seq<Frame>, d: nat, accepts: ColorTarget -> bool)
    requires d < |frames| && Draws(frames[d]) && LastInstances(frames, d).Some?
    ensures var r := Decide(SnapshotAt(frames, d), accepts); r.Err? ==> Reachable(r.error)
  {
    hide Lower, StateAt, SourceAt, LastInstances, Draws, ProgramAddress, ResolveTarget, PlanDraw;
    SourceIffInitialized(frames, d, ShaderBank, GEOMETRY_LO);
    SourceIffInitialized(frames, d, ShaderBank, GEOMETRY_HI);
    SourceIffInitialized(frames, d, ShaderBank, PIXEL_LO);
    SourceIffInitialized(frames, d, ShaderBank, PIXEL_HI);
    SourceIffInitialized(frames, d, UserConfigBank, PRIMITIVE_TYPE);
    SourceIffInitialized(frames, d, ContextBank, TARGET_MASK);
    SourceIffInitialized(frames, d, ContextBank, TARGET_BASE);
    SourceIffInitialized(frames, d, ContextBank, TARGET_INFO);
    SourceIffInitialized(frames, d, ContextBank, TARGET_BASE_EXT);
    SourceIffInitialized(frames, d, ContextBank, TARGET_ATTRIB2);
    SourceIffInitialized(frames, d, ContextBank, TARGET_ATTRIB3);
  }

  lemma SourceIffInitialized(frames: seq<Frame>, n: nat, bank: Bank, r: nat)
    requires n <= |frames| && r < WINDOW
    ensures StateAt(frames, n, bank).initialized[r] <==> SourceAt(frames, n, bank, r).Some?
  {
    hide Lower, StateAt, LastWriter;
    StateIsLastWrite(frames, n, bank, r);
  }

  // ----- what a submission plan is -----

  predicate Supported(f: Frame) { f.header.control == 0 && Lower(f).Ok? }

  ghost predicate OnlyDraw(frames: seq<Frame>, n: nat, d: nat)
    requires n <= |frames|
  {
    d < n && Draws(frames[d]) && LastInstances(frames, d).Some?
    && forall k :: 0 <= k < n && Draws(frames[k]) ==> k == d
  }

  /** The buffer frames completely, every frame is supported, there is one draw with an instance count
      before it, and the snapshot at that draw decides the plan. */
  ghost predicate IsPlan(
    flag: u32, buffer: seq<byte>, accepts: ColorTarget -> bool, frames: seq<Frame>, d: nat, plan: Plan)
  {
    && flag == 0 && IsFraming(buffer, frames)
    && (forall i :: 0 <= i < |frames| ==> Supported(frames[i]))
    && OnlyDraw(frames, |frames|, d)
    && Decide(SnapshotAt(frames, d), accepts) == Ok(plan)
  }

  // ----- the recording functions -----

  /** `record_*_source`. */
  function RecordSource(op: Operation, f: Frame, index: nat, bank: Bank, target: nat, previous: Option<Source>)
    : (r: Option<Source>)
  {
    if !op.WriteRegisters? || op.bank != bank then previous
    else if target < op.start || target - op.start >= |op.values| then previous
    else Some(Source(index, f.offset, f.offset + 2 + (target - op.start)))
  }

  function RecordShader(op: Operation, f: Frame, index: nat, s: Sources): (r: Sources) {
    s.(geometryLo := RecordSource(op, f, index, ShaderBank, GEOMETRY_LO, s.geometryLo),
       geometryHi := RecordSource(op, f, index, ShaderBank, GEOMETRY_HI, s.geometryHi),
       pixelLo := RecordSource(op, f, index, ShaderBank, PIXEL_LO, s.pixelLo),
       pixelHi := RecordSource(op, f, index, ShaderBank, PIXEL_HI, s.pixelHi))
  }

  function RecordContext(op: Operation, f: Frame, index: nat, s: Sources): (r: Sources) {
    s.(mask := RecordSource(op, f, index, ContextBank, TARGET_MASK, s.mask),
       base := RecordSource(op, f, index, ContextBank, TARGET_BASE, s.base),
       info := RecordSource(op, f, index, ContextBank, TARGET_INFO, s.info),
       baseExt := RecordSource(op, f, index, ContextBank, TARGET_BASE_EXT, s.baseExt),
       attrib2 := RecordSource(op, f, index, ContextBank, TARGET_ATTRIB2, s.attrib2),
       attrib3 := RecordSource(op, f, index, ContextBank, TARGET_ATTRIB3, s.attrib3))
  }

  function RecordUserConfig(op: Operation, f: Frame, index: nat, s: Sources): (r: Sources) {
    s.(primitive := RecordSource(op, f, index, UserConfigBank, PRIMITIVE_TYPE, s.primitive))
  }

  /** Recording after a frame keeps track of the last writer. */
  lemma RecordTracks(frames: seq<Frame>, n: nat, bank: Bank, r: nat)
    requires n < |frames| && Lower(frames[n]).Ok?
    ensures SourceAt(frames, n + 1, bank, r)
         == RecordSource(Lower(frames[n]).value, frames[n], n, bank, r, SourceAt(frames, n, bank, r))
  {
    hide Lower;
  }

  /** A frame that does not write a bank leaves its sources alone. */
  lemma RecordKeeps(frames: seq<Frame>, n: nat, bank: Bank, r: nat)
    requires n < |frames| && Lower(frames[n]).Ok?
    requires !(Lower(frames[n]).value.WriteRegisters? && Lower(frames[n]).value.bank == bank)
    ensures SourceAt(frames, n + 1, bank, r) == SourceAt(frames, n, bank, r)
  {
    hide Lower;
    RecordTracks(frames, n, bank, r);
  }

  lemma ShaderSources(frames: seq<Frame>, n: nat)
    requires n < |frames| && Lower(frames[n]).Ok?
    ensures var s, t, op := SourcesAt(frames, n), SourcesAt(frames, n + 1), Lower(frames[n]).value;
            RecordShader(op, frames[n], n, s) ==
            s.(geometryLo := t.geometryLo, geometryHi := t.geometryHi, pixelLo := t.pixelLo, pixelHi := t.pixelHi)
  {
    hide Lower, SourceAt, RecordSource;
    RecordTracks(frames, n, ShaderBank, GEOMETRY_LO);
    RecordTracks(frames, n, ShaderBank, GEOMETRY_HI);
    RecordTracks(frames, n, ShaderBank, PIXEL_LO);
    RecordTracks(frames, n, ShaderBank, PIXEL_HI);
  }

  lemma ContextSources(frames: seq<Frame>, n: nat)
    requires n < |frames| && Lower(frames[n]).Ok?
    ensures var s, t, op := SourcesAt(frames, n), SourcesAt(frames, n + 1), Lower(frames[n]).value;
            RecordContext(op, frames[n], n, s) ==
            s.(mask := t.mask, base := t.base, info := t.info,
               baseExt := t.baseExt, attrib2 := t.attrib2, attrib3 := t.attrib3)
  {
    hide Lower, SourceAt, RecordSource;
    RecordTracks(frames, n, ContextBank, TARGET_MASK);
    RecordTracks(frames, n, ContextBank, TARGET_BASE);
    RecordTracks(frames, n, ContextBank, TARGET_INFO);
    RecordTracks(frames, n, ContextBank, TARGET_BASE_EXT);
    RecordTracks(frames, n, ContextBank, TARGET_ATTRIB2);
    RecordTracks(frames, n, ContextBank, TARGET_ATTRIB3);
  }

  lemma UserConfigSources(frames: seq<Frame>, n: nat)
    requires n < |frames| && Lower(frames[n]).Ok?
    ensures var s, t, op := SourcesAt(frames, n), SourcesAt(frames, n + 1), Lower(frames[n]).value;
            RecordUserConfig(op, frames[n], n, s) == s.(primitive := t.primitive)
  {
    hide Lower, SourceAt, RecordSource;
    RecordTracks(frames, n, UserConfigBank, PRIMITIVE_TYPE);
  }

  /** What the loop does to the sources, for every kind of frame. */
  function Record(op: Operation, f: Frame, index: nat, s: Sources): (r: Sources) {
    if !op.WriteRegisters? then s
    else match op.bank
         case ShaderBank => RecordShader(op, f, index, s)
         case ContextBank => RecordContext(op, f, index, s)
         case UserConfigBank => RecordUserConfig(op, f, index, s)
  }

  lemma RecordIsSourcesAt(frames: seq<Frame>, n: nat)
    requires n < |frames| && Lower(frames[n]).Ok?
    ensures Record(Lower(frames[n]).value, frames[n], n, SourcesAt(frames, n)) == SourcesAt(frames, n + 1)
  {
    hide Lower, SourceAt, RecordSource, SourcesAt, RecordShader, RecordContext, RecordUserConfig;
    ShaderSources(frames, n);
    ContextSources(frames, n);
    UserConfigSources(frames, n);
    OtherSources(frames, n);
  }

  /** The fields of banks that the frame does not write. */
  lemma OtherSources(frames: seq<Frame>, n: nat)
    requires n < |frames| && Lower(frames[n]).Ok?
    ensures var s, t, op := SourcesAt(frames, n), SourcesAt(frames, n + 1), Lower(frames[n]).value;
            && (!(op.WriteRegisters? && op.bank == ShaderBank) ==>
                  && s.geometryLo == t.geometryLo && s.geometryHi == t.geometryHi
                  && s.pixelLo == t.pixelLo && s.pixelHi == t.pixelHi)
            && (!(op.WriteRegisters? && op.bank == ContextBank) ==>
                  && s.mask == t.mask && s.base == t.base && s.info == t.info
                  && s.baseExt == t.baseExt && s.attrib2 == t.attrib2 && s.attrib3 == t.attrib3)
            && (!(op.WriteRegisters? && op.bank == UserConfigBank) ==> s.primitive == t.primitive)
  {
    hide Lower, SourceAt;
    var op := Lower(frames[n]).value;
    if !(op.WriteRegisters? && op.bank == ShaderBank) {
      RecordKeeps(frames, n, ShaderBank, GEOMETRY_LO);
      RecordKeeps(frames, n, ShaderBank, GEOMETRY_HI);
      RecordKeeps(frames, n, ShaderBank, PIXEL_LO);
      RecordKeeps(frames, n, ShaderBank, PIXEL_HI);
    }
    if !(op.WriteRegisters? && op.bank == ContextBank) {
      RecordKeeps(frames, n, ContextBank, TARGET_MASK);
      RecordKeeps(frames, n, ContextBank, TARGET_BASE);
      RecordKeeps(frames, n, ContextBank, TARGET_INFO);
      RecordKeeps(frames, n, ContextBank, TARGET_BASE_EXT);
      RecordKeeps(frames, n, ContextBank, TARGET_ATTRIB2);
      RecordKeeps(frames, n, ContextBank, TARGET_ATTRIB3);
    }
    if !(op.WriteRegisters? && op.bank == UserConfigBank) {
      RecordKeeps(frames, n, UserConfigBank, PRIMITIVE_TYPE);
    }
  }

  // ----- the pass -----

  /** The state of the pass, besides the three register files. */
  datatype Pass = Pass(
    instances: Option<u32>, instancesSource: Option<Source>, sources: Sources, snapshot: Option<Snapshot>)

  const FRESH: Pass := Pass(None, None, NO_SOURCES, None)

  /** What the pass knows after `n` frames. */
  ghost predicate PassAt(frames: seq<Frame>, n: nat, p: Pass)
    requires n <= |frames|
  {
    && (forall i :: 0 <= i < n ==> Supported(frames[i]))
    && p.sources == SourcesAt(frames, n)
    && (match LastInstances(frames, n)
        case None => p.instances.None? && p.instancesSource.None?
        case Some(j) =>
          && p.instances == Some(Lower(frames[j]).value.count)
          && p.instancesSource == Some(ControlSource(frames, j)))
    && (p.snapshot.None? ==> forall k :: 0 <= k < n ==> !Draws(frames[k]))
    && (p.snapshot.Some? ==> exists d :: OnlyDraw(frames, n, d) && p.snapshot.value == SnapshotAt(frames, d))
  }

  lemma StartOfPass(frames: seq<Frame>)
    ensures PassAt(frames, 0, FRESH)
  {
  }

  /** The frame makes a plan impossible. */
  ghost predicate Blocked(frames: seq<Frame>, i: nat)
    requires i < |frames|
  {
    || !Supported(frames[i])
    || (Draws(frames[i]) && (LastInstances(frames, i).None? || exists k :: 0 <= k < i && Draws(frames[k])))
  }

  /** What the loop reports for a frame that makes a plan impossible, in the order it looks. */
  ghost predicate FaultAt(frames: seq<Frame>, i: nat, e: SubmissionError)
    requires i < |frames|
  {
    var f := frames[i];
    if f.header.control != 0 then e == HeaderControlBits(i)
    else if Lower(f).Err? then e == LoweringFailure(i, Lower(f).error)
    else if exists k :: 0 <= k < i && Draws(frames[k]) then Draws(f) && e == MultipleDraws(i)
    else Draws(f) && LastInstances(frames, i).None? && e == MissingInstances(i)
  }

  lemma FaultIsBlocked(frames: seq<Frame>, i: nat, e: SubmissionError)
    requires i < |frames| && FaultAt(frames, i, e)
    ensures Blocked(frames, i) && Reachable(e) && !e.FramingFailure?
  {
    hide Lower;
  }

  /** Nothing is wrong with the frames that the pass has been through. */
  lemma PassedFramesAreFine(frames: seq<Frame>, n: nat, p: Pass)
    requires n <= |frames| && PassAt(frames, n, p)
    ensures forall k :: 0 <= k < n ==> !Blocked(frames, k)
  {
    hide Lower, SourcesAt, SnapshotAt, Draws, Supported;
  }

  /** Why there is no plan: the flag, the framing, the first faulty frame, no draw at all, or what is
      decided from the snapshot. */
  ghost predicate Explains(flag: u32, buffer: seq<byte>, accepts: ColorTarget -> bool, e: SubmissionError) {
    if flag != 0 then e == UnsupportedFlag(flag)
    else if e.FramingFailure? then FramingFails(buffer, e.framing)
    else exists frames :: IsFraming(buffer, frames) && FramesExplain(frames, accepts, e)
  }

  ghost predicate FramesExplain(frames: seq<Frame>, accepts: ColorTarget -> bool, e: SubmissionError) {
    || (exists i :: 0 <= i < |frames| && FaultAt(frames, i, e) && forall k :: 0 <= k < i ==> !Blocked(frames, k))
    || ((forall k :: 0 <= k < |frames| ==> !Blocked(frames, k)) && SnapshotExplains(frames, accepts, e))
  }

  ghost predicate SnapshotExplains(frames: seq<Frame>, accepts: ColorTarget -> bool, e: SubmissionError) {
    || ((forall k :: 0 <= k < |frames| ==> !Draws(frames[k])) && e == MissingDraw)
    || (exists d :: OnlyDraw(frames, |frames|, d) && Decide(SnapshotAt(frames, d), accepts) == Err(e))
  }

  lemma BlockedHasNoPlan(frames: seq<Frame>, i: nat, d: nat)
    requires i < |frames| && Blocked(frames, i)
    ensures !((forall k :: 0 <= k < |frames| ==> Supported(frames[k])) && OnlyDraw(frames, |frames|, d))
  {
    hide Supported, Draws;
  }

  lemma PassWrites(frames: seq<Frame>, i: nat, p: Pass)
    requires i < |frames| && PassAt(frames, i, p) && Supported(frames[i]) && Lower(frames[i]).value.WriteRegisters?
    ensures PassAt(frames, i + 1, p.(sources := Record(Lower(frames[i]).value, frames[i], i, p.sources)))
  {
    hide Lower, SourcesAt, Record, SnapshotAt;
    RecordIsSourcesAt(frames, i);
    DrawStaysAlone(frames, i, p);
  }

  lemma PassSetsInstances(frames: seq<Frame>, i: nat, p: Pass)
    requires i < |frames| && PassAt(frames, i, p) && Supported(frames[i]) && Lower(frames[i]).value.SetInstances?
    ensures PassAt(frames, i + 1, p.(instances := Some(Lower(frames[i]).value.count),
                                     instancesSource := Some(ControlSource(frames, i))))
  {
    hide Lower, SourcesAt, SnapshotAt;
    RecordIsSourcesAt(frames, i);
    DrawStaysAlone(frames, i, p);
  }

  /** A frame that draws nothing keeps the only draw the only draw. */
  lemma DrawStaysAlone(frames: seq<Frame>, i: nat, p: Pass)
    requires i < |frames| && PassAt(frames, i, p) && !Draws(frames[i])
    ensures p.snapshot.None? ==> forall k :: 0 <= k < i + 1 ==> !Draws(frames[k])
    ensures p.snapshot.Some? ==> exists d :: OnlyDraw(frames, i + 1, d) && p.snapshot.value == SnapshotAt(frames, d)
  {
    hide Lower, SourcesAt, SnapshotAt, Draws;
    if p.snapshot.Some? {
      var d :| OnlyDraw(frames, i, d) && p.snapshot.value == SnapshotAt(frames, d);
      assert OnlyDraw(frames, i + 1, d);
    }
  }

  lemma PassDraws(frames: seq<Frame>, i: nat, p: Pass)
    requires i < |frames| && PassAt(frames, i, p) && Supported(frames[i]) && Draws(frames[i])
    requires p.snapshot.None? && LastInstances(frames, i).Some?
    ensures PassAt(frames, i + 1, p.(snapshot := Some(SnapshotAt(frames, i))))
  {
    hide Lower, SourcesAt, SnapshotAt;
    RecordIsSourcesAt(frames, i);
    assert OnlyDraw(frames, i + 1, i);
  }

  /** The register files hold the fold of the frames seen so far. */
  ghost predicate FilesAt(
    frames: seq<Frame>, n: nat, shader: RegisterFile, context: RegisterFile, userConfig: RegisterFile)
    requires n <= |frames|
    reads shader.values, shader.initialized, context.values, context.initialized
    reads userConfig.values, userConfig.initialized
  {
    && shader.Valid() && context.Valid() && userConfig.Valid()
    && shader.values != context.values && shader.values != userConfig.values && context.values != userConfig.values
    && shader.initialized != context.initialized && shader.initialized != userConfig.initialized
    && context.initialized != userConfig.initialized
    && shader.Contents() == StateAt(frames, n, ShaderBank)
    && context.Contents() == StateAt(frames, n, ContextBank)
    && userConfig.Contents() == StateAt(frames, n, UserConfigBank)
  }

  lemma StateStep(frames: seq<Frame>, n: nat, bank: Bank)
    requires n < |frames| && Lower(frames[n]).Ok?
    ensures var op := Lower(frames[n]).value;
            StateAt(frames, n + 1, bank) ==
            if op.WriteRegisters? && op.bank == bank && InWindow(op.start, |op.values|)
            then Written(StateAt(frames, n, bank), op.start, op.values) else StateAt(frames, n, bank)
  {
    hide Lower, InWindow;
  }

  /** A register packet: lower it and apply it to its file. The apply failure is unreachable. */
  method WriteBank(frames: seq<Frame>, i: nat, bank: Bank, file: RegisterFile)
    returns (r: Result<Operation, SubmissionError>)
    requires i < |frames| && file.Valid() && frames[i].header.opcode == OpcodeOf(bank)
    requires file.Contents() == StateAt(frames, i, bank)
    modifies file.values, file.initialized
    ensures r.Ok? <==> Lower(frames[i]).Ok?
    ensures r.Err? ==> r.error == LoweringFailure(i, Lower(frames[i]).error)
    ensures r.Ok? ==> r.value == Lower(frames[i]).value && r.value.WriteRegisters? && r.value.bank == bank
                      && file.Contents() == StateAt(frames, i + 1, bank)
  {
    hide StateAt, LowerDrawControl, LowerRegisters;
    var lowered := LowerSetRegister(frames[i], bank);
    assert lowered == Lower(frames[i]);
    if lowered.Err? {
      return Err(LoweringFailure(i, lowered.error));
    }
    LowerInWindow(frames[i]);
    StateStep(frames, i, bank);
    var applied := file.Apply(bank, lowered.value);
    assert applied;
    return Ok(lowered.value);
  }

  /** One turn of the loop. */
  method HandleFrame(
    frames: seq<Frame>, i: nat, p: Pass, shader: RegisterFile, context: RegisterFile, userConfig: RegisterFile)
    returns (r: Result<Pass, SubmissionError>)
    requires i < |frames| && PassAt(frames, i, p) && FilesAt(frames, i, shader, context, userConfig)
    modifies shader.values, shader.initialized, context.values, context.initialized
    modifies userConfig.values, userConfig.initialized
    ensures r.Ok? ==> PassAt(frames, i + 1, r.value) && FilesAt(frames, i + 1, shader, context, userConfig)
    ensures r.Err? ==> FaultAt(frames, i, r.error)
  {
    hide StateAt, SourcesAt, PassAt, Written, Record;
    var f := frames[i];
    if f.header.control != 0 {
      return Err(HeaderControlBits(i));
    }
    if f.header.opcode == SET_SH_REG || f.header.opcode == SET_CONTEXT_REG || f.header.opcode == SET_UCONFIG_REG {
      var bank := if f.header.opcode == SET_SH_REG then ShaderBank
                  else if f.header.opcode == SET_CONTEXT_REG then ContextBank else UserConfigBank;
      var file := if bank == ShaderBank then shader else if bank == ContextBank then context else userConfig;
      var written := WriteBank(frames, i, bank, file);
      if written.Err? {
        return Err(written.error);
      }
      StateStep(frames, i, ShaderBank);
      StateStep(frames, i, ContextBank);
      StateStep(frames, i, UserConfigBank);
      PassWrites(frames, i, p);
      return Ok(p.(sources := Record(written.value, f, i, p.sources)));
    }
    r := HandleDrawControl(frames, i, p, shader, context, userConfig);
    if r.Ok? {
      StateStep(frames, i, ShaderBank);
      StateStep(frames, i, ContextBank);
      StateStep(frames, i, UserConfigBank);
    }
  }

  /** The instance-count and draw packets, and every other opcode. */
  method HandleDrawControl(
    frames: seq<Frame>, i: nat, p: Pass, shader: RegisterFile, context: RegisterFile, userConfig: RegisterFile)
    returns (r: Result<Pass, SubmissionError>)
    requires i < |frames| && PassAt(frames, i, p) && FilesAt(frames, i, shader, context, userConfig)
    requires frames[i].header.control == 0
    requires frames[i].header.opcode !in {SET_SH_REG, SET_CONTEXT_REG, SET_UCONFIG_REG}
    ensures r.Ok? ==> PassAt(frames, i + 1, r.value) && Lower(frames[i]).Ok? && !Lower(frames[i]).value.WriteRegisters?
    ensures r.Err? ==> FaultAt(frames, i, r.error)
  {
    hide StateAt, SourcesAt, LowerRegisters;
    var f := frames[i];
    if f.header.opcode != NUM_INSTANCES && f.header.opcode != DRAW_INDEX_AUTO {
      return Err(LoweringFailure(i, UnsupportedOpcode));
    }
    var lowered := LowerDrawControl(f);
    assert lowered == Lower(f);
    if lowered.Err? {
      return Err(LoweringFailure(i, lowered.error));
    }
    var op := lowered.value;
    if op.SetInstances? {
      PassSetsInstances(frames, i, p);
      return Ok(p.(instances := Some(op.count), instancesSource := Some(Source(i, f.offset, f.offset + 1))));
    }
    if p.snapshot.Some? {
      return Err(MultipleDraws(i));
    }
    if p.instances.None? || p.instancesSource.None? {
      return Err(MissingInstances(i));
    }
    var shaderState := shader.Copy();
    var contextState := context.Copy();
    var userState := userConfig.Copy();
    var snapshot := Snapshot(shaderState, contextState, userState, p.instances.value, op.indices, op.initiator,
                             p.sources, p.instancesSource.value, Source(i, f.offset, f.offset + 1));
    assert snapshot == SnapshotAt(frames, i);
    PassDraws(frames, i, p);
    return Ok(p.(snapshot := Some(snapshot)));
  }

  /** `plan_sce_agc_first_raster_submission`: succeeds exactly when the buffer has a plan, and
      otherwise says why it has none. */
  method PlanSubmission(flag: u32, buffer: seq<byte>, accepts: ColorTarget -> bool)
    returns (r: Result<Plan, SubmissionError>)
    requires |buffer| < TWO64
    ensures r.Ok? ==> exists frames, d :: IsPlan(flag, buffer, accepts, frames, d, r.value)
    ensures r.Err? ==> forall frames, d, plan :: !IsPlan(flag, buffer, accepts, frames, d, plan)
    ensures r.Err? ==> Explains(flag, buffer, accepts, r.error) && Reachable(r.error)
  {
    hide IsFraming, PassAt, StateAt, SourcesAt, Decide, OnlyDraw, Supported, FaultAt, Blocked, FramingFails;
    if flag != 0 {
      return Err(UnsupportedFlag(flag));
    }
    var framed := FrameStream(buffer);
    if framed.Err? {
      return Err(FramingFailure(framed.error));
    }
    var frames := framed.value;
    forall g | IsFraming(buffer, g)
      ensures g == frames
    {
      UniqueFraming(buffer, g, frames);
    }
    var shader := new RegisterFile();
    var context := new RegisterFile();
    var userConfig := new RegisterFile();
    StartOfFiles(frames);
    StartOfPass(frames);
    var p := FRESH;
    var i := 0;
    while i < |frames|
      invariant 0 <= i <= |frames|
      invariant fresh(shader.values) && fresh(context.values) && fresh(userConfig.values)
      invariant fresh(shader.initialized) && fresh(context.initialized) && fresh(userConfig.initialized)
      invariant PassAt(frames, i, p) && FilesAt(frames, i, shader, context, userConfig)
    {
      PassedFramesAreFine(frames, i, p);
      var handled := HandleFrame(frames, i, p, shader, context, userConfig);
      if handled.Err? {
        FaultIsBlocked(frames, i, handled.error);
        assert FramesExplain(frames, accepts, handled.error);
        forall d
          ensures !((forall k :: 0 <= k < |frames| ==> Supported(frames[k])) && OnlyDraw(frames, |frames|, d))
        {
          BlockedHasNoPlan(frames, i, d);
        }
        return Err(handled.error);
      }
      p := handled.value;
      i := i + 1;
    }
    r := Conclude(flag, buffer, accepts, frames, p);
  }

  /** The checks after the loop. */
  method Conclude(flag: u32, buffer: seq<byte>, accepts: ColorTarget -> bool, frames: seq<Frame>, p: Pass)
    returns (r: Result<Plan, SubmissionError>)
    requires flag == 0 && IsFraming(buffer, frames) && PassAt(frames, |frames|, p)
    requires forall g :: IsFraming(buffer, g) ==> g == frames
    ensures r.Ok? ==> exists g, d :: IsPlan(flag, buffer, accepts, g, d, r.value)
    ensures r.Err? ==> forall g, d, plan :: !IsPlan(flag, buffer, accepts, g, d, plan)
    ensures r.Err? ==> Explains(flag, buffer, accepts, r.error) && Reachable(r.error)
  {
    hide IsFraming, StateAt, SourcesAt, Decide, Supported, SnapshotAt, Draws, LastInstances;
    PassedFramesAreFine(frames, |frames|, p);
    if p.snapshot.None? {
      assert SnapshotExplains(frames, accepts, MissingDraw);
      return Err(MissingDraw);
    }
    ghost var d :| OnlyDraw(frames, |frames|, d) && p.snapshot.value == SnapshotAt(frames, d);
    ProvenanceIsNeverMissing(frames, d, accepts);
    r := Decide(p.snapshot.value, accepts);
    if r.Ok? {
      assert IsPlan(flag, buffer, accepts, frames, d, r.value);
    } else {
      DecideIsNotFraming(p.snapshot.value, accepts);
      assert SnapshotExplains(frames, accepts, r.error);
    }
  }

  lemma DecideIsNotFraming(s: Snapshot, accepts: ColorTarget -> bool)
    ensures Decide(s, accepts).Err? ==> !Decide(s, accepts).error.FramingFailure?
  {
  }

  lemma StartOfFiles(frames: seq<Frame>)
    ensures forall bank: Bank :: StateAt(frames, 0, bank) == EmptyState()
  {
  }

  // ----- what a plan tells -----

  /** A buffer has at most one plan. */
  lemma PlanIsUnique(flag: u32, buffer: seq<byte>, accepts: ColorTarget -> bool,
                     frames: seq<Frame>, d: nat, plan: Plan, frames': seq<Frame>, d': nat, plan': Plan)
    requires IsPlan(flag, buffer, accepts, frames, d, plan) && IsPlan(flag, buffer, accepts, frames', d', plan')
    ensures frames == frames' && d == d' && plan == plan'
  {
    hide Decide, SnapshotAt, Supported, Draws;
    UniqueFraming(buffer, frames, frames');
  }

  /** Everything about a prefix depends on the prefix only. */
  lemma {:induction false} PrefixDecides(frames: seq<Frame>, m: nat, n: nat, bank: Bank, r: nat)
    requires n <= m <= |frames|
    ensures LastWriter(frames[..m], n, bank, r) == LastWriter(frames, n, bank, r)
    ensures StateAt(frames[..m], n, bank) == StateAt(frames, n, bank)
    ensures LastInstances(frames[..m], n) == LastInstances(frames, n)
    decreases n
  {
    hide WritesTo, After, SetsInstances;
    if n > 0 {
      PrefixDecides(frames, m, n - 1, bank, r);
    }
  }

  lemma PrefixSources(frames: seq<Frame>, m: nat, n: nat)
    requires n <= m <= |frames|
    ensures SourcesAt(frames[..m], n) == SourcesAt(frames, n)
  {
    hide LastWriter, WritesTo;
    forall bank, r
      ensures SourceAt(frames[..m], n, bank, r) == SourceAt(frames, n, bank, r)
    {
      PrefixDecides(frames, m, n, bank, r);
    }
  }

  lemma PrefixSnapshot(frames: seq<Frame>, d: nat)
    requires d < |frames| && Draws(frames[d]) && LastInstances(frames, d).Some?
    ensures LastInstances(frames[..d + 1], d) == LastInstances(frames, d)
    ensures SnapshotAt(frames[..d + 1], d) == SnapshotAt(frames, d)
  {
    hide Lower, SourcesAt, StateAt, LastWriter, Draws, LastInstances, SetsInstances;
    PrefixSources(frames, d + 1, d);
    PrefixDecides(frames, d + 1, d, ShaderBank, 0);
    PrefixDecides(frames, d + 1, d, ContextBank, 0);
    PrefixDecides(frames, d + 1, d, UserConfigBank, 0);
    var cut := frames[..d + 1];
    var j := LastInstances(frames, d).value;
    assert cut[d] == frames[d] && cut[j] == frames[j];
  }

  /** Whatever follows the draw does not matter: the buffer cut right after it has the same plan. */
  lemma PlanEndsAtDraw(
    flag: u32, buffer: seq<byte>, accepts: ColorTarget -> bool, frames: seq<Frame>, d: nat, plan: Plan)
    requires IsPlan(flag, buffer, accepts, frames, d, plan)
    ensures d < |frames| && 4 * End(frames[d]) <= |buffer|
    ensures IsPlan(flag, buffer[..4 * End(frames[d])], accepts, frames[..d + 1], d, plan)
  {
    hide IsFraming, Decide, SnapshotAt, Supported, Draws, LastInstances;
    FramingPrefix(buffer, frames, d + 1);
    PrefixSnapshot(frames, d);
  }

  /** A reported source names the last packet before the draw that wrote the register, and its word
      holds the register's value. */
  ghost predicate Traced(
    buffer: seq<byte>, frames: seq<Frame>, d: nat, bank: Bank, r: nat, s: State, source: Option<Source>)
    requires d <= |frames| && r < WINDOW
  {
    && s.initialized[r] && source.Some?
    && source.value.frame < d && WritesTo(frames[source.value.frame], bank, r)
    && (forall k :: source.value.frame < k < d ==> !WritesTo(frames[k], bank, r))
    && source.value.packet == frames[source.value.frame].offset
    && 4 * source.value.value + 4 <= |buffer| && WordAt(buffer, source.value.value) == s.values[r]
  }

  lemma SourceIsTraced(buffer: seq<byte>, frames: seq<Frame>, d: nat, bank: Bank, r: nat)
    requires Consecutive(buffer, frames) && d <= |frames| && r < WINDOW && StateAt(frames, d, bank).initialized[r]
    ensures Traced(buffer, frames, d, bank, r, StateAt(frames, d, bank), SourceAt(frames, d, bank, r))
  {
    hide StateAt, WritesTo, Lower, FrameFits, WordValue;
    SourceHoldsValue(buffer, frames, d, bank, r);
  }

  /** The states in a plan are the folds of the register packets before its draw, and all eleven
      reported sources are traced. */
  lemma PlanIsTraced(flag: u32, buffer: seq<byte>, accepts: ColorTarget -> bool, frames: seq<Frame>, d: nat, plan: Plan)
    requires IsPlan(flag, buffer, accepts, frames, d, plan)
    ensures d < |frames|
    ensures && plan.shader == StateAt(frames, d, ShaderBank) && plan.context == StateAt(frames, d, ContextBank)
            && plan.userConfig == StateAt(frames, d, UserConfigBank)
    ensures && Traced(buffer, frames, d, ShaderBank, 0x0c8, plan.shader, plan.sources.geometryLo)
            && Traced(buffer, frames, d, ShaderBank, 0x0c9, plan.shader, plan.sources.geometryHi)
            && Traced(buffer, frames, d, ShaderBank, 0x008, plan.shader, plan.sources.pixelLo)
            && Traced(buffer, frames, d, ShaderBank, 0x009, plan.shader, plan.sources.pixelHi)
            && Traced(buffer, frames, d, UserConfigBank, 0x242, plan.userConfig, plan.sources.primitive)
            && Traced(buffer, frames, d, ContextBank, 0x08e, plan.context, plan.sources.mask)
            && Traced(buffer, frames, d, ContextBank, 0x318, plan.context, plan.sources.base)
            && Traced(buffer, frames, d, ContextBank, 0x31c, plan.context, plan.sources.info)
            && Traced(buffer, frames, d, ContextBank, 0x390, plan.context, plan.sources.baseExt)
            && Traced(buffer, frames, d, ContextBank, 0x3b0, plan.context, plan.sources.attrib2)
            && Traced(buffer, frames, d, ContextBank, 0x3b8, plan.context, plan.sources.attrib3)
  {
    hide StateAt, SourceAt, Traced, Consecutive, Supported, Draws, LastInstances;
    hide ProgramAddress, ResolveTarget, PlanDraw;
    SourceIsTraced(buffer, frames, d, ShaderBank, GEOMETRY_LO);
    SourceIsTraced(buffer, frames, d, ShaderBank, GEOMETRY_HI);
    SourceIsTraced(buffer, frames, d, ShaderBank, PIXEL_LO);
    SourceIsTraced(buffer, frames, d, ShaderBank, PIXEL_HI);
    SourceIsTraced(buffer, frames, d, UserConfigBank, PRIMITIVE_TYPE);
    SourceIsTraced(buffer, frames, d, ContextBank, TARGET_MASK);
    SourceIsTraced(buffer, frames, d, ContextBank, TARGET_BASE);
    SourceIsTraced(buffer, frames, d, ContextBank, TARGET_INFO);
    SourceIsTraced(buffer, frames, d, ContextBank, TARGET_BASE_EXT);
    SourceIsTraced(buffer, frames, d, ContextBank, TARGET_ATTRIB2);
    SourceIsTraced(buffer, frames, d, ContextBank, TARGET_ATTRIB3);
  }

  /** The word of the buffer that a source names. */
  function SourceWord(buffer: seq<byte>, source: Option<Source>): (v: u32)
    requires source.Some? && 4 * source.value.value + 4 <= |buffer|
  {
    WordAt(buffer, source.value.value)
  }

  ghost predicate InBuffer(buffer: seq<byte>, source: Option<Source>) {
    source.Some? && 4 * source.value.value + 4 <= |buffer|
  }

  /** Every number in a plan, as a function of the words that its sources name: the two program
      addresses, the colour target and the primitive type. */
  lemma PlanIsReadOff(
    flag: u32, buffer: seq<byte>, accepts: ColorTarget -> bool, frames: seq<Frame>, d: nat, plan: Plan)
    requires IsPlan(flag, buffer, accepts, frames, d, plan)
    ensures var o := plan.sources;
            && InBuffer(buffer, o.geometryLo) && InBuffer(buffer, o.geometryHi)
            && InBuffer(buffer, o.pixelLo) && InBuffer(buffer, o.pixelHi) && InBuffer(buffer, o.primitive)
            && InBuffer(buffer, o.mask) && InBuffer(buffer, o.base) && InBuffer(buffer, o.info)
            && InBuffer(buffer, o.baseExt) && InBuffer(buffer, o.attrib2) && InBuffer(buffer, o.attrib3)
            && plan.geometry == (SourceWord(buffer, o.geometryHi) * TWO32 + SourceWord(buffer, o.geometryLo)) * 256
            && plan.pixel == (SourceWord(buffer, o.pixelHi) * TWO32 + SourceWord(buffer, o.pixelLo)) * 256
            && plan.target.base == (SourceWord(buffer, o.baseExt) * TWO32 + SourceWord(buffer, o.base)) * 256
            && plan.target.mask == SourceWord(buffer, o.mask) && plan.target.info == SourceWord(buffer, o.info)
            && plan.target.attrib2 == SourceWord(buffer, o.attrib2)
            && plan.target.attrib3 == SourceWord(buffer, o.attrib3)
            && plan.draw.primitive == SourceWord(buffer, o.primitive) && accepts(plan.target)
  {
    hide StateAt, SourcesAt, Consecutive, Supported, Draws, LastInstances, Decide, WordAt, WritesTo;
    PlanIsTraced(flag, buffer, accepts, frames, d, plan);
    DecideMeans(SnapshotAt(frames, d), accepts);
  }

  /** The draw words are read from the draw packet, and the instance count from the last instance packet
      before it. */
  lemma PlanReadsTheBuffer(
    flag: u32, buffer: seq<byte>, accepts: ColorTarget -> bool, frames: seq<Frame>, d: nat, plan: Plan)
    requires IsPlan(flag, buffer, accepts, frames, d, plan)
    ensures var draw, instances := plan.drawSource, plan.instancesSource;
            && draw.frame == d && 4 * draw.value + 8 <= |buffer|
            && WordAt(buffer, draw.value) == plan.draw.indices == 3
            && WordAt(buffer, draw.value + 1) == plan.draw.initiator == 2
            && instances.frame < d && 4 * instances.value + 4 <= |buffer|
            && WordAt(buffer, instances.value) == plan.draw.instances == 1
            && (forall k :: instances.frame < k < d ==> k < |frames| && !SetsInstances(frames[k]))
  {
    hide StateAt, SourceAt, Consecutive, Supported, ProgramAddress, ResolveTarget;
    hide WordValue, FrameFits, SetsInstances, Draws;
    var j := LastInstances(frames, d).value;
    ControlWords(buffer, frames, d);
    ControlWords(buffer, frames, j);
  }

  /** The words after the header of a control packet are its operands. */
  lemma ControlWords(buffer: seq<byte>, frames: seq<Frame>, j: nat)
    requires Consecutive(buffer, frames) && j < |frames|
    ensures SetsInstances(frames[j]) ==>
              && 4 * frames[j].offset + 8 <= |buffer|
              && WordAt(buffer, frames[j].offset + 1) == Lower(frames[j]).value.count
    ensures Draws(frames[j]) ==>
              && 4 * frames[j].offset + 12 <= |buffer|
              && WordAt(buffer, frames[j].offset + 1) == Lower(frames[j]).value.indices
              && WordAt(buffer, frames[j].offset + 2) == Lower(frames[j]).value.initiator
  {
    hide WordValue, LowerRegisters;
    assert Placed(buffer, frames, j);
  }

  /** A code address that was split over the two program registers resolves to itself. */
  lemma SplitProgramResolves(s: State, lo: nat, hi: nat, code: u64)
    requires lo < WINDOW && hi < WINDOW && s.initialized[lo] && s.initialized[hi]
    requires code % 256 == 0 && code < 0x1_0000_0000_0000
    requires s.values[lo] == code / 0x100 % TWO32 && s.values[hi] == code / 0x100_0000_0000 % 256
    ensures ProgramAddress(s, lo, hi) == Some(code)
  {
    var units := code / 0x100;
    assert code == units * 0x100 && units < 0x100_0000_0000;
    assert code / 0x100_0000_0000 == units / TWO32;
  }
}
