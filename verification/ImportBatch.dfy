/** Import patch batches: everything is checked before the first guest write. */
module ImportBatch {
  import opened Machine
  import opened GuestRanges
  import opened MemoryPlan
  import opened GuestMemory
  import opened Patches

  const MAX_PATCHES: nat := 256
  const JUMP_SLOT: nat := 7
  const WIDTH: nat := 8

  datatype RawPatch = RawPatch(
    target: u64, source: u64, relocationType: nat, addend: Option<i64>, bytes: seq<byte>)
  type Patch = p: RawPatch | |p.bytes| == WIDTH witness RawPatch(0, 0, 0, None, [0, 0, 0, 0, 0, 0, 0, 0])

  datatype BatchErrorCode = TooManyPatches | ConflictingTarget | PreflightFailure | ApplyFailure
  datatype BatchError = BatchError(
    code: BatchErrorCode, index: nat, conflict: Option<nat>, applied: nat, memory: Option<MemoryError>)

  datatype Applied = Applied(target: u64, source: u64)

  function AsWrite(p: Patch): (w: Write) {
    Write(p.target, p.bytes)
  }

  function AsWrites(ps: seq<Patch>): (ws: seq<Write>)
    ensures |ws| == |ps| && forall i :: 0 <= i < |ps| ==> ws[i] == AsWrite(ps[i])
  {
    seq(|ps|, i requires 0 <= i < |ps| => AsWrite(ps[i]))
  }

  function Summary(ps: seq<Patch>): (r: seq<Applied>)
    ensures |r| == |ps| && forall i :: 0 <= i < |ps| ==> r[i] == Applied(ps[i].target, ps[i].source)
  {
    seq(|ps|, i requires 0 <= i < |ps| => Applied(ps[i].target, ps[i].source))
  }

  /** What a batch needs in order to be applied. */
  ghost predicate Acceptable(v: View, ps: seq<Patch>) {
    |ps| <= 256 && AllWritable(v, AsWrites(ps)) && PairwiseDisjoint(AsWrites(ps))
  }

  /** The first reason a batch is refused. */
  ghost predicate Refused(v: View, ps: seq<Patch>, e: BatchError) {
    var ws := AsWrites(ps);
    && e.applied == 0
    && match e.code
       case TooManyPatches => |ps| > MAX_PATCHES && e.index == |ps| && e.conflict == None && e.memory == None
       case PreflightFailure =>
         && |ps| <= MAX_PATCHES && e.index < |ps| && e.conflict == None
         && !Writable(v, ws[e.index]) && (forall i :: 0 <= i < e.index ==> Writable(v, ws[i]))
         && e.memory == Some(AccessVerdict(v, ps[e.index].target, WIDTH, true).error)
       case ConflictingTarget =>
         && |ps| <= MAX_PATCHES && AllWritable(v, ws) && e.index < |ps| && e.memory == None
         && e.conflict.Some? && e.conflict.value < e.index
         && !Disjoint(ws[e.conflict.value], ws[e.index])
         && PairwiseDisjoint(ws[..e.index])
       case ApplyFailure => false
  }

  lemma RefusedIsNotAcceptable(v: View, ps: seq<Patch>, e: BatchError)
    requires Refused(v, ps, e)
    ensures !Acceptable(v, ps)
  {
  }

  /** An eight-byte target that passed the write check is a valid range, and the range overlap test is
      disjointness of the writes. */
  lemma OverlapIsConflict(v: View, a: Patch, b: Patch)
    requires Writable(v, AsWrite(a)) && Writable(v, AsWrite(b))
    ensures CreateRange(a.target, WIDTH).Some? && CreateRange(b.target, WIDTH).Some?
    ensures Overlaps(CreateRange(a.target, WIDTH).value, CreateRange(b.target, WIDTH).value)
       <==> !Disjoint(AsWrite(a), AsWrite(b))
  {
    WritableBytes(v, AsWrite(a), a.target);
    WritableBytes(v, AsWrite(b), b.target);
  }

  /** `apply_owned_module_import_patch`. */
  method ApplyPatch(p: Patch, memory: GuestMemory) returns (r: Result<Applied, MemoryError>)
    modifies memory`bytes
    ensures r.Ok? <==> AccessVerdict(memory.CurrentView(), p.target, WIDTH, true).Ok?
    ensures r.Ok? ==> r.value == Applied(p.target, p.source)
                      && memory.bytes == WriteBytes(old(memory.bytes), p.target, p.bytes)
    ensures r.Err? ==> r.error == AccessVerdict(memory.CurrentView(), p.target, WIDTH, true).error
                       && memory.bytes == old(memory.bytes)
  {
    var allowed := memory.PreflightWrite(p.target, WIDTH);
    if allowed.Err? {
      return Err(allowed.error);
    }
    var written := memory.Write(p.target, p.bytes);
    if written.Err? {
      return Err(written.error);
    }
    return Ok(Applied(p.target, p.source));
  }

  /** The preflight loop and the overlap loops: None when the batch may proceed. */
  method CheckBatch(ps: seq<Patch>, memory: GuestMemory) returns (r: Option<BatchError>)
    ensures r.None? ==> Acceptable(memory.CurrentView(), ps)
    ensures r.Some? ==> Refused(memory.CurrentView(), ps, r.value)
  {
    hide AccessVerdict;
    if |ps| > MAX_PATCHES {
      return Some(BatchError(TooManyPatches, |ps|, None, 0, None));
    }
    ghost var v, ws := memory.CurrentView(), AsWrites(ps);
    var i := 0;
    while i < |ps|
      invariant 0 <= i <= |ps|
      invariant forall k :: 0 <= k < i ==> Writable(v, ws[k])
    {
      var permitted := memory.PreflightWrite(ps[i].target, WIDTH);
      if permitted.Err? {
        return Some(BatchError(PreflightFailure, i, None, 0, Some(permitted.error)));
      }
      i := i + 1;
    }
    i := 0;
    while i < |ps|
      invariant 0 <= i <= |ps|
      invariant forall k, j :: 0 <= k < j < i ==> Disjoint(ws[k], ws[j])
    {
      var j := 0;
      while j < i
        invariant 0 <= j <= i
        invariant forall k :: 0 <= k < j ==> Disjoint(ws[k], ws[i])
      {
        assert Writable(v, ws[i]) && Writable(v, ws[j]);
        OverlapIsConflict(v, ps[i], ps[j]);
        var first := CreateRange(ps[i].target, WIDTH);
        var second := CreateRange(ps[j].target, WIDTH);
        if Overlaps(first.value, second.value) {
          assert ws[..i] == AsWrites(ps[..i]);
          return Some(BatchError(ConflictingTarget, i, Some(j), 0, None));
        }
        j := j + 1;
      }
      i := i + 1;
    }
    return None;
  }

  /** `apply_owned_module_import_batch`: with fixed mappings the write phase cannot fail, so a batch is
      applied whole or not at all. */
  method ApplyBatch(ps: seq<Patch>, memory: GuestMemory) returns (r: Result<seq<Applied>, BatchError>)
    modifies memory`bytes
    ensures r.Ok? <==> Acceptable(memory.CurrentView(), ps)
    ensures r.Ok? ==> r.value == Summary(ps) && memory.bytes == ApplyAll(old(memory.bytes), AsWrites(ps))
    ensures r.Err? ==> Refused(memory.CurrentView(), ps, r.error) && memory.bytes == old(memory.bytes)
  {
    hide AccessVerdict;
    ghost var v, ws := memory.CurrentView(), AsWrites(ps);
    var refusal := CheckBatch(ps, memory);
    if refusal.Some? {
      RefusedIsNotAcceptable(v, ps, refusal.value);
      return Err(refusal.value);
    }
    var applied: seq<Applied> := [];
    var i := 0;
    while i < |ps|
      invariant 0 <= i <= |ps| && memory.CurrentView() == v
      invariant applied == Summary(ps)[..i]
      invariant memory.bytes == ApplyAll(old(memory.bytes), ws[..i])
    {
      assert Writable(v, ws[i]);
      var written := ApplyPatch(ps[i], memory);
      // The apply_failure exit is unreachable while the mappings do not change.
      assert written.Ok?;
      assert ws[..i + 1][..i] == ws[..i];
      applied := applied + [written.value];
      i := i + 1;
    }
    assert ws[..i] == ws;
    return Ok(applied);
  }

  // ----- live jump slots -----

  datatype LiveErrorCode =
    | LiveTooManyPatches | UnsupportedRelocationType | InvalidPatchEncoding | ProviderNotLiveExecutable | BatchFailure
  datatype LiveError = LiveError(code: LiveErrorCode, index: nat, applied: nat, batch: Option<BatchError>)

  /** The patch is a jump slot that writes the little-endian address of a live executable provider. */
  ghost predicate LiveSlot(v: View, p: Patch) {
    && p.relocationType == 7 && p.addend.Some? && p.source != 0
    && p.bytes == LittleEndian(WIDTH, p.source)
    && ExactExecutableAt(v, p.source)
  }

  /** The first slot that is not live, and what is wrong with it; or why the batch itself is refused. */
  ghost predicate LiveRefused(v: View, ps: seq<Patch>, e: LiveError) {
    && e.applied == 0
    && if |ps| > MAX_PATCHES then e == LiveError(LiveTooManyPatches, |ps|, 0, None)
       else if e.code == BatchFailure then
         && e.batch.Some? && e.index == e.batch.value.index && Refused(v, ps, e.batch.value)
         && forall k :: 0 <= k < |ps| ==> LiveSlot(v, ps[k])
       else
         && e.batch == None && e.index < |ps| && SlotFault(v, ps[e.index], e.code)
         && forall k :: 0 <= k < e.index ==> LiveSlot(v, ps[k])
  }

  ghost predicate SlotFault(v: View, p: Patch, code: LiveErrorCode) {
    if p.relocationType != JUMP_SLOT then code == UnsupportedRelocationType
    else if p.addend.None? || p.source == 0 || p.bytes != LittleEndian(WIDTH, p.source)
    then code == InvalidPatchEncoding
    else !ExactExecutableAt(v, p.source) && code == ProviderNotLiveExecutable
  }

  method EncodesSource(p: Patch) returns (r: bool)
    ensures r <==> p.bytes == LittleEndian(WIDTH, p.source)
  {
    var k := 0;
    while k < WIDTH
      invariant 0 <= k <= WIDTH
      invariant forall j :: 0 <= j < k ==> p.bytes[j] == LittleEndian(WIDTH, p.source)[j]
    {
      LittleEndianAt(WIDTH, p.source, k);
      if p.bytes[k] != ShiftRightBytes(p.source, k) % 256 {
        return false;
      }
      k := k + 1;
    }
    return true;
  }

  /** `apply_live_owned_jump_slot_batch`. */
  method ApplyLiveBatch(ps: seq<Patch>, memory: GuestMemory) returns (r: Result<seq<Applied>, LiveError>)
    modifies memory`bytes
    ensures r.Ok? <==> Acceptable(memory.CurrentView(), ps)
                       && forall i :: 0 <= i < |ps| ==> LiveSlot(memory.CurrentView(), ps[i])
    ensures r.Ok? ==> r.value == Summary(ps) && memory.bytes == ApplyAll(old(memory.bytes), AsWrites(ps))
    ensures r.Err? ==> memory.bytes == old(memory.bytes) && LiveRefused(memory.CurrentView(), ps, r.error)
  {
    hide Acceptable, Refused, ExactExecutableAt, AsWrites, Summary, LittleEndian;
    ghost var v := memory.CurrentView();
    if |ps| > MAX_PATCHES {
      TooManyIsNotAcceptable(v, ps);
      return Err(LiveError(LiveTooManyPatches, |ps|, 0, None));
    }
    var i := 0;
    while i < |ps|
      invariant 0 <= i <= |ps| && memory.bytes == old(memory.bytes)
      invariant forall k :: 0 <= k < i ==> LiveSlot(v, ps[k])
    {
      var p := ps[i];
      if p.relocationType != JUMP_SLOT {
        assert !LiveSlot(v, ps[i]);
        return Err(LiveError(UnsupportedRelocationType, i, 0, None));
      }
      if p.addend.None? || p.source == 0 {
        assert !LiveSlot(v, ps[i]);
        return Err(LiveError(InvalidPatchEncoding, i, 0, None));
      }
      var encoded := EncodesSource(p);
      if !encoded {
        assert !LiveSlot(v, ps[i]);
        return Err(LiveError(InvalidPatchEncoding, i, 0, None));
      }
      var live := memory.IsExactExecutable(p.source);
      if !live {
        assert !LiveSlot(v, ps[i]);
        return Err(LiveError(ProviderNotLiveExecutable, i, 0, None));
      }
      i := i + 1;
    }
    var applied := ApplyBatch(ps, memory);
    if applied.Err? {
      RefusedAppliesNothing(v, ps, applied.error);
      return Err(LiveError(BatchFailure, applied.error.index, applied.error.applied, Some(applied.error)));
    }
    return Ok(applied.value);
  }

  lemma TooManyIsNotAcceptable(v: View, ps: seq<Patch>)
    requires |ps| > MAX_PATCHES
    ensures !Acceptable(v, ps)
  {
  }

  lemma RefusedAppliesNothing(v: View, ps: seq<Patch>, e: BatchError)
    requires Refused(v, ps, e)
    ensures e.applied == 0
  {
  }

  // ----- what a successful batch leaves behind -----

  /** After a live batch every target holds its provider's address, and nothing else has changed. */
  lemma LiveBatchMemory(v: View, ps: seq<Patch>, before: Bytes)
    requires Acceptable(v, ps) && forall i :: 0 <= i < |ps| ==> LiveSlot(v, ps[i])
    ensures var after := ApplyAll(before, AsWrites(ps));
            && (forall i :: 0 <= i < |ps| ==>
                  FromLittleEndian(ReadBytes(after, ps[i].target, WIDTH)) == ps[i].source)
            && (forall a :: Untouched(AsWrites(ps), a) ==> ByteOf(after, a) == ByteOf(before, a))
  {
    hide AccessVerdict, ExactExecutableAt;
    var ws := AsWrites(ps);
    forall i | 0 <= i < |ps|
      ensures FromLittleEndian(ReadBytes(ApplyAll(before, ws), ps[i].target, WIDTH)) == ps[i].source
    {
      PatchReadsBack(before, ws, i);
      assert LiveSlot(v, ps[i]);
      Fits64(ps[i].source);
      DecodeEncode(WIDTH, ps[i].source);
    }
    forall a | Untouched(ws, a)
      ensures ByteOf(ApplyAll(before, ws), a) == ByteOf(before, a)
    {
      OutsideUnchanged(before, ws, a);
    }
  }

  /** Under a planned layout no accepted batch changes a byte of executable memory. */
  lemma ExecutableBytesSurvive(req: Request, v: View, ws: seq<Write>, before: Bytes, i: nat, a: int)
    requires PlanMatches(req, v.plan) && AllWritable(v, ws)
    requires i < |v.plan.regions| && v.plan.regions[i].permissions.execute && Contains(v.plan.regions[i].range, a)
    ensures ByteOf(ApplyAll(before, ws), a) == ByteOf(before, a)
  {
    hide AccessVerdict, PlanMatches;
    forall k | 0 <= k < |ws|
      ensures !Covered(ws[k], a)
    {
      if Covered(ws[k], a) {
        assert Writable(v, ws[k]);
        WritableBytes(v, ws[k], a);
        WritableIsNotExecutable(req, v.plan, a, i);
      }
    }
    OutsideUnchanged(before, ws, a);
  }
}
