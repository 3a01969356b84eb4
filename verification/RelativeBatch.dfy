/** R_X86_64_RELATIVE patches (section 4.4.1 of the System V AMD64 psABI: word64 = B + A) and the
    batch that applies them with a sorted-neighbour overlap test. */
module RelativeBatch {
  import opened Machine
  import opened GuestRanges
  import opened MemoryPlan
  import opened GuestMemory
  import opened Patches
  import opened Sorting

  const MAX_PATCHES: nat := 4096
  const RELATIVE_TYPE: nat := 8
  const WIDTH: nat := 8

  /** The highest address at which an eight-byte word fits. */
  const TOP: int := TWO64 - 8

  // ----- one patch -----

  datatype TableKind = Rela | PltRela | OtherTable
  datatype Relocation = Relocation(kind: TableKind, target: u64, symbolIndex: nat, type_: nat, addend: Option<i64>)

  datatype RawPatch = RawPatch(target: u64, loadBias: u64, addend: i64, value: u64, bytes: seq<byte>)
  type Patch = p: RawPatch | |p.bytes| == WIDTH witness RawPatch(0, 0, 0, 0, [0, 0, 0, 0, 0, 0, 0, 0])

  datatype PatchError =
    | UnsupportedTableKind | UnsupportedRelocationType | SymbolIndexNotZero | MissingRelaAddend
    | TargetRangeOverflow | RelocatedValueOverflow

  function FirstProblem(rel: Relocation): (e: PatchError) {
    if rel.kind != Rela then UnsupportedTableKind
    else if rel.type_ != RELATIVE_TYPE then UnsupportedRelocationType
    else if rel.symbolIndex != 0 then SymbolIndexNotZero
    else if rel.addend.None? then MissingRelaAddend
    else if rel.target > TOP then TargetRangeOverflow
    else RelocatedValueOverflow
  }

  /** `build_owned_x86_64_relative_patch`: the value is the exact integer sum, or there is no patch. */
  method BuildRelativePatch(rel: Relocation, bias: u64) returns (r: Result<Patch, PatchError>)
    ensures r.Ok? <==> rel.kind == Rela && rel.type_ == 8 && rel.symbolIndex == 0 && rel.addend.Some?
                       && rel.target <= TOP && 0 <= bias + rel.addend.value < TWO64
    ensures r.Ok? ==>
              && r.value.target == rel.target && r.value.loadBias == bias && r.value.addend == rel.addend.value
              && r.value.value == bias + rel.addend.value
              && FromLittleEndian(r.value.bytes) == bias + rel.addend.value
    ensures r.Ok? ==> r.value.bytes == LittleEndian(WIDTH, r.value.value)
    ensures r.Err? ==> r.error == FirstProblem(rel)
  {
    if rel.kind != Rela {
      return Err(UnsupportedTableKind);
    }
    if rel.type_ != RELATIVE_TYPE {
      return Err(UnsupportedRelocationType);
    }
    if rel.symbolIndex != 0 {
      return Err(SymbolIndexNotZero);
    }
    if rel.addend.None? {
      return Err(MissingRelaAddend);
    }
    if CreateRange(rel.target, WIDTH).None? {
      return Err(TargetRangeOverflow);
    }
    var addend := rel.addend.value;
    var value := 0;
    if addend >= 0 {
      if bias > U64_MAX - addend {
        return Err(RelocatedValueOverflow);
      }
      value := bias + addend;
    } else {
      var incremented: int := -(addend + 1);
      var magnitude := incremented + 1;
      if bias < magnitude {
        return Err(RelocatedValueOverflow);
      }
      value := bias - magnitude;
    }
    var bytes := EncodeLe64(value);
    Fits64(value);
    DecodeEncode(WIDTH, value);
    return Ok(RawPatch(rel.target, bias, addend, value, bytes));
  }

  /** The patch is what its own target, bias and addend determine. */
  predicate Canonical(p: Patch) {
    && p.target <= TOP && p.value == p.loadBias + p.addend
    && p.bytes == LittleEndian(WIDTH, p.value)
  }

  method IsCanonical(p: Patch) returns (r: bool)
    ensures r <==> Canonical(p)
  {
    var encoded := BuildRelativePatch(Relocation(Rela, p.target, 0, RELATIVE_TYPE, Some(p.addend)), p.loadBias);
    return encoded.Ok? && encoded.value == p;
  }

  // ----- the sorted-neighbour test -----

  datatype Target = Target(base: u64, index: nat)

  /** `ordered[i].base < ordered[i - 1].base + 8` in 64-bit arithmetic, which wraps. */
  predicate NeighbourConflict(previous: u64, next: u64) {
    next < (previous + WIDTH) % TWO64
  }

  ghost predicate NeighboursPass(bases: seq<Target>) {
    forall i :: 0 < i < |bases| ==> !NeighbourConflict(bases[i - 1].base, bases[i].base)
  }

  predicate WordsDisjoint(a: u64, b: u64) {
    a + WIDTH <= b || b + WIDTH <= a
  }

  /** What the test really accepts: disjoint words, or two words that are both the topmost one. */
  predicate Tolerated(a: u64, b: u64) {
    WordsDisjoint(a, b) || (a == TOP && b == TOP)
  }

  ghost predicate AllTolerated(ts: seq<Target>) {
    forall i, j :: 0 <= i < j < |ts| ==> Tolerated(ts[i].base, ts[j].base)
  }

  function Base(t: Target): (b: int) {
    t.base
  }

  lemma {:induction false} NeighboursReach(ts: seq<Target>, i: nat, j: nat)
    requires SortedBy(ts, Base) && (forall k :: 0 <= k < |ts| ==> ts[k].base <= TOP)
    requires NeighboursPass(ts) && i < j < |ts|
    ensures Tolerated(ts[i].base, ts[j].base)
    decreases j
  {
    assert Base(ts[i]) <= Base(ts[j]);
    assert Base(ts[j - 1]) <= Base(ts[j]);
    assert !NeighbourConflict(ts[j - 1].base, ts[j].base);
    assert Base(ts[i]) <= Base(ts[j - 1]) by {
      if i < j - 1 { assert Base(ts[i]) <= Base(ts[j - 1]); }
    }
    if ts[j - 1].base == TOP {
      if i < j - 1 {
        NeighboursReach(ts, i, j - 1);
      }
    }
  }

  /** On sorted targets the neighbour test is the all-pairs test, except that it lets through words
      that all sit at the very top of the address space, where base + 8 wraps to zero. */
  lemma NeighbourTestMeans(ts: seq<Target>)
    requires SortedBy(ts, Base) && (forall k :: 0 <= k < |ts| ==> ts[k].base <= TOP)
    ensures NeighboursPass(ts) <==> AllTolerated(ts)
  {
    if NeighboursPass(ts) {
      forall i, j | 0 <= i < j < |ts|
        ensures Tolerated(ts[i].base, ts[j].base)
      {
        NeighboursReach(ts, i, j);
      }
    }
    if AllTolerated(ts) {
      forall i | 0 < i < |ts|
        ensures !NeighbourConflict(ts[i - 1].base, ts[i].base)
      {
        assert Tolerated(ts[i - 1].base, ts[i].base);
        assert Base(ts[i - 1]) <= Base(ts[i]);
      }
    }
  }

  // ----- from sorted order back to patch order -----

  ghost predicate Distinct(ts: seq<Target>) {
    forall i, j :: 0 <= i < j < |ts| ==> ts[i] != ts[j]
  }

  lemma PermutedDistinct(a: seq<Target>, b: seq<Target>)
    requires multiset(a) == multiset(b) && Distinct(a)
    ensures Distinct(b)
  {
    forall i, j | 0 <= i < j < |b|
      ensures b[i] != b[j]
    {
      assert b[j] in multiset(a);
      var k :| 0 <= k < |a| && a[k] == b[j];
      OccursOnce(a, k);
      if b[i] == b[j] {
        OccursTwice(b, i, j);
      }
    }
  }

  lemma OccursOnce(a: seq<Target>, k: nat)
    requires Distinct(a) && k < |a|
    ensures multiset(a)[a[k]] == 1
  {
    assert a == a[..k] + [a[k]] + a[k + 1..];
    assert a[k] !in a[..k] && a[k] !in a[k + 1..];
  }

  lemma OccursTwice(b: seq<Target>, i: nat, j: nat)
    requires i < j < |b| && b[i] == b[j]
    ensures multiset(b)[b[j]] >= 2
  {
    assert b == b[..j] + [b[j]] + b[j + 1..];
    assert b[j] == b[..j][i];
    assert b[j] in multiset(b[..j]);
  }

  /** Tolerance is symmetric, so it does not depend on the order of the targets. */
  lemma ToleratedPermutes(a: seq<Target>, b: seq<Target>)
    requires multiset(a) == multiset(b) && Distinct(a) && AllTolerated(a)
    ensures AllTolerated(b)
  {
    PermutedDistinct(a, b);
    forall i, j | 0 <= i < j < |b|
      ensures Tolerated(b[i].base, b[j].base)
    {
      assert b[i] in multiset(a) && b[j] in multiset(a);
      var p :| 0 <= p < |a| && a[p] == b[i];
      var q :| 0 <= q < |a| && a[q] == b[j];
      assert p != q;
      if p < q {
        assert Tolerated(a[p].base, a[q].base);
      } else {
        assert Tolerated(a[q].base, a[p].base);
      }
    }
  }

  // ----- the batch -----

  datatype BatchErrorCode =
    | TooManyPatches | InvalidPatchEncoding | ConflictingTarget | PreflightFailure
    | ApplyFailure | ReadbackFailure | ReadbackMismatch
  datatype BatchError = BatchError(
    code: BatchErrorCode, index: nat, conflict: Option<nat>, applied: nat, memory: Option<MemoryError>)
  datatype Applied = Applied(target: u64, value: u64)

  function AsWrites(ps: seq<Patch>): (ws: seq<Write>)
    ensures |ws| == |ps| && forall i :: 0 <= i < |ps| ==> ws[i] == Write(ps[i].target, ps[i].bytes)
  {
    seq(|ps|, i requires 0 <= i < |ps| => Write(ps[i].target, ps[i].bytes))
  }

  function Summary(ps: seq<Patch>): (r: seq<Applied>)
    ensures |r| == |ps| && forall i :: 0 <= i < |ps| ==> r[i] == Applied(ps[i].target, ps[i].value)
  {
    seq(|ps|, i requires 0 <= i < |ps| => Applied(ps[i].target, ps[i].value))
  }

  /** What one patch must satisfy before anything is written. */
  ghost predicate Ready(v: View, p: Patch) {
    && Canonical(p)
    && AccessVerdict(v, p.target, WIDTH, true).Ok?
    && AccessVerdict(v, p.target, WIDTH, false).Ok?
  }

  ghost predicate PatchesTolerated(ps: seq<Patch>) {
    forall i, j :: 0 <= i < j < |ps| ==> Tolerated(ps[i].target, ps[j].target)
  }

  ghost predicate Acceptable(v: View, ps: seq<Patch>) {
    |ps| <= 4096 && (forall i :: 0 <= i < |ps| ==> Ready(v, ps[i])) && PatchesTolerated(ps)
  }

  /** The reason for a refusal. Which of several conflicting pairs is named depends on how the library
      orders equal targets. */
  ghost predicate Refused(v: View, ps: seq<Patch>, e: BatchError) {
    && e.applied == 0
    && match e.code
       case TooManyPatches => |ps| > MAX_PATCHES && e.index == |ps|
       case InvalidPatchEncoding =>
         && |ps| <= MAX_PATCHES && e.index < |ps| && !Canonical(ps[e.index])
         && forall i :: 0 <= i < e.index ==> Ready(v, ps[i])
       case PreflightFailure =>
         && |ps| <= MAX_PATCHES && e.index < |ps| && Canonical(ps[e.index]) && !Ready(v, ps[e.index])
         && (forall i :: 0 <= i < e.index ==> Ready(v, ps[i]))
         && var writing := AccessVerdict(v, ps[e.index].target, WIDTH, true);
            e.memory == Some(if writing.Err? then writing.error
                             else AccessVerdict(v, ps[e.index].target, WIDTH, false).error)
       case ConflictingTarget =>
         && |ps| <= MAX_PATCHES && (forall i :: 0 <= i < |ps| ==> Ready(v, ps[i]))
         && e.index < |ps| && e.conflict.Some? && e.conflict.value < |ps| && e.conflict.value != e.index
         && !Tolerated(ps[e.conflict.value].target, ps[e.index].target)
       case _ => false
  }

  lemma RefusedIsNotAcceptable(v: View, ps: seq<Patch>, e: BatchError)
    requires Refused(v, ps, e)
    ensures !Acceptable(v, ps)
  {
    hide AccessVerdict, Canonical;
    if e.code == ConflictingTarget {
      var i, j := e.conflict.value, e.index;
      assert !Tolerated(ps[if i < j then i else j].target, ps[if i < j then j else i].target);
    }
  }

  function Targets(ps: seq<Patch>): (ts: seq<Target>)
    ensures |ts| == |ps| && forall i :: 0 <= i < |ps| ==> ts[i] == Target(ps[i].target, i)
  {
    seq(|ps|, i requires 0 <= i < |ps| => Target(ps[i].target, i))
  }

  /** The preflight loop. */
  method PreflightAll(ps: seq<Patch>, memory: GuestMemory) returns (r: Option<BatchError>, ordered: seq<Target>)
    requires |ps| <= MAX_PATCHES
    ensures r.None? ==> (forall i :: 0 <= i < |ps| ==> Ready(memory.CurrentView(), ps[i])) && ordered == Targets(ps)
    ensures r.Some? ==> Refused(memory.CurrentView(), ps, r.value)
  {
    hide AccessVerdict, Canonical;
    ghost var v := memory.CurrentView();
    ordered := [];
    var i := 0;
    while i < |ps|
      invariant 0 <= i <= |ps|
      invariant forall k :: 0 <= k < i ==> Ready(v, ps[k])
      invariant ordered == Targets(ps)[..i]
    {
      var canonical := IsCanonical(ps[i]);
      if !canonical {
        return Some(BatchError(InvalidPatchEncoding, i, None, 0, None)), ordered;
      }
      var writable := memory.PreflightWrite(ps[i].target, WIDTH);
      if writable.Err? {
        return Some(BatchError(PreflightFailure, i, None, 0, Some(writable.error))), ordered;
      }
      var readable := memory.Read(ps[i].target, WIDTH);
      if readable.Err? {
        return Some(BatchError(PreflightFailure, i, None, 0, Some(readable.error))), ordered;
      }
      ordered := ordered + [Target(ps[i].target, i)];
      i := i + 1;
    }
    return None, ordered;
  }

  /** The neighbour loop over the sorted targets. */
  method CheckNeighbours(ts: seq<Target>) returns (r: Option<nat>)
    ensures r.None? <==> NeighboursPass(ts)
    ensures r.Some? ==> 0 < r.value < |ts| && NeighbourConflict(ts[r.value - 1].base, ts[r.value].base)
  {
    var i := 1;
    while i < |ts|
      invariant 1 <= i && (i <= |ts| || |ts| == 0)
      invariant forall k :: 0 < k < i && k < |ts| ==> !NeighbourConflict(ts[k - 1].base, ts[k].base)
    {
      if ts[i].base < (ts[i - 1].base + WIDTH) % TWO64 {
        return Some(i);
      }
      i := i + 1;
    }
    return None;
  }

  /** Sorting and testing together decide whether all pairs of patches are tolerated. */
  method FindConflict(ps: seq<Patch>, unordered: seq<Target>) returns (r: Option<(nat, nat)>)
    requires unordered == Targets(ps) && forall i :: 0 <= i < |ps| ==> ps[i].target <= TOP
    ensures r.None? ==> PatchesTolerated(ps)
    ensures r.Some? ==> r.value.0 < |ps| && r.value.1 < |ps| && r.value.0 != r.value.1
                        && !Tolerated(ps[r.value.0].target, ps[r.value.1].target)
  {
    var ordered := Sort(unordered, Base);
    PermutedDistinct(unordered, ordered);
    forall k | 0 <= k < |ordered|
      ensures ordered[k].index < |ps| && ordered[k].base == ps[ordered[k].index].target
    {
      assert ordered[k] in unordered;
    }
    var conflict := CheckNeighbours(ordered);
    NeighbourTestMeans(ordered);
    if conflict.None? {
      SortedTolerated(ps, unordered, ordered);
      return None;
    }
    var i := conflict.value;
    assert ordered[i - 1] != ordered[i];
    assert Base(ordered[i - 1]) <= Base(ordered[i]);
    return Some((ordered[i - 1].index, ordered[i].index));
  }

  lemma SortedTolerated(ps: seq<Patch>, unordered: seq<Target>, ordered: seq<Target>)
    requires unordered == Targets(ps) && multiset(ordered) == multiset(unordered)
    requires AllTolerated(ordered) && Distinct(ordered)
    ensures PatchesTolerated(ps)
  {
    ToleratedPermutes(ordered, unordered);
    forall i, j | 0 <= i < j < |ps|
      ensures Tolerated(ps[i].target, ps[j].target)
    {
      assert Tolerated(unordered[i].base, unordered[j].base);
    }
  }

  /** `apply_owned_relative_batch`: everything is checked first; after that, with fixed mappings,
      neither a write nor a readback can fail. */
  method ApplyRelativeBatch(ps: seq<Patch>, memory: GuestMemory) returns (r: Result<seq<Applied>, BatchError>)
    modifies memory`bytes
    ensures r.Ok? <==> Acceptable(memory.CurrentView(), ps)
    ensures r.Ok? ==> r.value == Summary(ps) && memory.bytes == ApplyAll(old(memory.bytes), AsWrites(ps))
    ensures r.Err? ==> Refused(memory.CurrentView(), ps, r.error) && memory.bytes == old(memory.bytes)
  {
    hide AccessVerdict, Refused, Canonical, PatchesTolerated;
    ghost var v := memory.CurrentView();
    if |ps| > MAX_PATCHES {
      TooManyRefused(v, ps);
      RefusedIsNotAcceptable(v, ps, BatchError(TooManyPatches, |ps|, None, 0, None));
      return Err(BatchError(TooManyPatches, |ps|, None, 0, None));
    }
    var refusal, unordered := PreflightAll(ps, memory);
    if refusal.Some? {
      RefusedIsNotAcceptable(v, ps, refusal.value);
      return Err(refusal.value);
    }
    ReadyFits(v, ps);
    var conflict := FindConflict(ps, unordered);
    if conflict.Some? {
      var e := BatchError(ConflictingTarget, conflict.value.1, Some(conflict.value.0), 0, None);
      ConflictRefused(v, ps, e);
      RefusedIsNotAcceptable(v, ps, e);
      return Err(e);
    }
    var applied := WriteAll(ps, memory);
    return Ok(applied);
  }

  lemma TooManyRefused(v: View, ps: seq<Patch>)
    requires |ps| > MAX_PATCHES
    ensures Refused(v, ps, BatchError(TooManyPatches, |ps|, None, 0, None))
  {
  }

  lemma ReadyFits(v: View, ps: seq<Patch>)
    requires forall i :: 0 <= i < |ps| ==> Ready(v, ps[i])
    ensures forall i :: 0 <= i < |ps| ==> ps[i].target <= TOP
  {
    hide AccessVerdict;
    forall i | 0 <= i < |ps|
      ensures ps[i].target <= TOP
    {
      assert Ready(v, ps[i]);
    }
  }

  lemma ConflictRefused(v: View, ps: seq<Patch>, e: BatchError)
    requires |ps| <= MAX_PATCHES && forall i :: 0 <= i < |ps| ==> Ready(v, ps[i])
    requires e.code == ConflictingTarget && e.applied == 0 && e.index < |ps|
    requires e.conflict.Some? && e.conflict.value < |ps| && e.conflict.value != e.index
    requires !Tolerated(ps[e.conflict.value].target, ps[e.index].target)
    ensures Refused(v, ps, e)
  {
    hide AccessVerdict;
  }

  /** The write and readback loop; its failure exits are unreachable. */
  method WriteAll(ps: seq<Patch>, memory: GuestMemory) returns (applied: seq<Applied>)
    requires forall i :: 0 <= i < |ps| ==> Ready(memory.CurrentView(), ps[i])
    modifies memory`bytes
    ensures applied == Summary(ps) && memory.bytes == ApplyAll(old(memory.bytes), AsWrites(ps))
  {
    hide AccessVerdict, Canonical;
    ghost var v, ws := memory.CurrentView(), AsWrites(ps);
    applied := [];
    var i := 0;
    while i < |ps|
      invariant 0 <= i <= |ps| && memory.CurrentView() == v
      invariant applied == Summary(ps)[..i]
      invariant memory.bytes == ApplyAll(old(memory.bytes), ws[..i])
    {
      assert Ready(v, ps[i]);
      var allowed := memory.PreflightWrite(ps[i].target, WIDTH);
      assert allowed.Ok?;
      var written := memory.Write(ps[i].target, ps[i].bytes);
      assert written.Ok?;
      assert ws[..i + 1][..i] == ws[..i];
      applied := applied + [Applied(ps[i].target, ps[i].value)];
      var observed := memory.Read(ps[i].target, WIDTH);
      assert observed.Ok?;
      assert observed.value == ps[i].bytes;
      i := i + 1;
    }
    assert ws[..i] == ws;
  }

  // ----- what success means -----

  ghost predicate Holds(m: Bytes, p: Patch) {
    FromLittleEndian(ReadBytes(m, p.target, WIDTH)) == p.loadBias + p.addend
  }

  /** Two accepted patches disagree about the topmost word. */
  ghost predicate TopClash(ps: seq<Patch>) {
    exists i, j :: 0 <= i < j < |ps| && ps[i].target == ps[j].target == TOP && ps[i].value != ps[j].value
  }

  lemma WrittenWordReads(m: Bytes, target: u64, bytes: seq<byte>)
    requires |bytes| == WIDTH
    ensures ReadBytes(WriteBytes(m, target, bytes), target, WIDTH) == bytes
  {
    hide ReadBytes, WriteBytes;
    var y := ReadBytes(WriteBytes(m, target, bytes), target, WIDTH);
    assert forall b :: 0 <= b < WIDTH ==> y[b] == bytes[b];
  }

  /** A tolerated write either misses the word or is the same topmost word with the same bytes. */
  lemma ToleratedWriteKeepsWord(m: Bytes, target: u64, bytes: seq<byte>, other: u64, others: seq<byte>)
    requires |bytes| == |others| == WIDTH && Tolerated(target, other)
    requires ReadBytes(m, target, WIDTH) == bytes && (other != target || others == bytes)
    ensures ReadBytes(WriteBytes(m, other, others), target, WIDTH) == bytes
  {
    hide ReadBytes, WriteBytes;
    var x, y := ReadBytes(m, target, WIDTH), ReadBytes(WriteBytes(m, other, others), target, WIDTH);
    assert forall b :: 0 <= b < WIDTH ==> y[b] == x[b];
  }

  lemma {:induction false} WordAfter(m: Bytes, ps: seq<Patch>, i: nat, k: nat)
    requires PatchesTolerated(ps) && i < k <= |ps|
    requires forall j :: i < j < k ==> ps[j].target != ps[i].target || ps[j].bytes == ps[i].bytes
    ensures ReadBytes(ApplyAll(m, AsWrites(ps)[..k]), ps[i].target, WIDTH) == ps[i].bytes
    decreases k
  {
    hide ReadBytes, WriteBytes;
    var ws := AsWrites(ps);
    assert ws[..k][..k - 1] == ws[..k - 1] && ws[..k][k - 1] == ws[k - 1];
    var before := ApplyAll(m, ws[..k - 1]);
    assert ApplyAll(m, ws[..k]) == WriteBytes(before, ps[k - 1].target, ps[k - 1].bytes);
    if i < k - 1 {
      WordAfter(m, ps, i, k - 1);
      ToleratedWriteKeepsWord(before, ps[i].target, ps[i].bytes, ps[k - 1].target, ps[k - 1].bytes);
    } else {
      WrittenWordReads(before, ps[i].target, ps[i].bytes);
    }
  }

  lemma {:induction false} LastAtTop(ps: seq<Patch>, k: nat) returns (last: nat)
    requires k < |ps| && ps[k].target == TOP
    ensures k <= last < |ps| && ps[last].target == TOP && forall j :: last < j < |ps| ==> ps[j].target != TOP
    decreases |ps| - k
  {
    if j :| k < j < |ps| && ps[j].target == TOP {
      last := LastAtTop(ps, j);
    } else {
      last := k;
    }
  }

  lemma CanonicalDecodes(v: View, ps: seq<Patch>, i: nat)
    requires Acceptable(v, ps) && i < |ps|
    ensures FromLittleEndian(ps[i].bytes) == ps[i].value == ps[i].loadBias + ps[i].addend
  {
    hide AccessVerdict;
    assert Ready(v, ps[i]);
    Fits64(ps[i].value);
    DecodeEncode(WIDTH, ps[i].value);
  }

  lemma NoClashHolds(v: View, ps: seq<Patch>, m: Bytes, i: nat)
    requires Acceptable(v, ps) && !TopClash(ps) && i < |ps|
    ensures Holds(ApplyAll(m, AsWrites(ps)), ps[i])
  {
    hide AccessVerdict, ReadBytes, ApplyAll, LittleEndian;
    var ws := AsWrites(ps);
    assert ws[..|ps|] == ws;
    forall j | i < j < |ps|
      ensures ps[j].target != ps[i].target || ps[j].bytes == ps[i].bytes
    {
      assert Tolerated(ps[i].target, ps[j].target);
      assert Ready(v, ps[i]) && Ready(v, ps[j]);
    }
    WordAfter(m, ps, i, |ps|);
    CanonicalDecodes(v, ps, i);
  }

  lemma ClashLoses(v: View, ps: seq<Patch>, m: Bytes)
    requires Acceptable(v, ps) && TopClash(ps)
    ensures exists i :: 0 <= i < |ps| && !Holds(ApplyAll(m, AsWrites(ps)), ps[i])
  {
    hide AccessVerdict, ReadBytes, ApplyAll, LittleEndian, Ready;
    var ws := AsWrites(ps);
    assert ws[..|ps|] == ws;
    var i, j :| 0 <= i < j < |ps| && ps[i].target == ps[j].target == TOP && ps[i].value != ps[j].value;
    var last := LastAtTop(ps, j);
    WordAfter(m, ps, last, |ps|);
    CanonicalDecodes(v, ps, i);
    CanonicalDecodes(v, ps, j);
    CanonicalDecodes(v, ps, last);
    var loser := if ps[i].value == ps[last].value then j else i;
    assert !Holds(ApplyAll(m, ws), ps[loser]);
  }

  /** Success leaves every target holding bias plus addend, exactly unless two patches write different
      values to the topmost word. */
  lemma SuccessMeansRelocated(v: View, ps: seq<Patch>, m: Bytes)
    requires Acceptable(v, ps)
    ensures (forall i :: 0 <= i < |ps| ==> Holds(ApplyAll(m, AsWrites(ps)), ps[i])) <==> !TopClash(ps)
  {
    hide AccessVerdict, Holds, TopClash, Acceptable;
    if TopClash(ps) {
      ClashLoses(v, ps, m);
    } else {
      forall i | 0 <= i < |ps|
        ensures Holds(ApplyAll(m, AsWrites(ps)), ps[i])
      {
        NoClashHolds(v, ps, m, i);
      }
    }
  }

  /** Bytes outside the targets never change, clash or not. */
  lemma OtherBytesUnchanged(ps: seq<Patch>, m: Bytes, a: int)
    requires Untouched(AsWrites(ps), a)
    ensures ByteOf(ApplyAll(m, AsWrites(ps)), a) == ByteOf(m, a)
  {
    OutsideUnchanged(m, AsWrites(ps), a);
  }

  // ----- the failing input -----

  const TOP_RANGE: GuestRange := RawRange(0xFFFF_FFFF_FFFF_F000, 0x1000)

  /** One read-write mapping over the last page, and the plan region for it. */
  const TOP_VIEW: View :=
    View(Image([MappingIntent(TOP_RANGE, Permissions(true, true, false), 0)], RawRange(0, 0)),
         Plan(0x1000, [Region(TOP_RANGE, Permissions(true, true, false), [MappingSource(0)])]), true)

  function TopPatch(value: byte): (p: Patch)
  {
    RawPatch(TOP, value, 0, value, [value, 0, 0, 0, 0, 0, 0, 0])
  }

  /** Two patches for the same topmost word with different values are accepted, and afterwards not
      both of them hold. */
  lemma TopmostWordCollision(m: Bytes)
    ensures var ps: seq<Patch> := [TopPatch(1), TopPatch(2)];
            && Acceptable(TOP_VIEW, ps)
            && !WordsDisjoint(ps[0].target, ps[1].target)
            && !(Holds(ApplyAll(m, AsWrites(ps)), ps[0]) && Holds(ApplyAll(m, AsWrites(ps)), ps[1]))
  {
    hide AccessVerdict, ApplyAll, LittleEndian, FromLittleEndian, Ready, Canonical;
    var ps: seq<Patch> := [TopPatch(1), TopPatch(2)];
    TopPatchReady(1);
    TopPatchReady(2);
    assert Acceptable(TOP_VIEW, ps);
    SuccessMeansRelocated(TOP_VIEW, ps, m);
    assert ps[0].target == ps[1].target == TOP && ps[0].value != ps[1].value;
  }

  lemma TopPatchReady(value: byte)
    ensures Ready(TOP_VIEW, TopPatch(value))
  {
    assert LittleEndian(8, value) == [value] + LittleEndian(7, 0);
    assert LittleEndian(7, 0) == [0] + LittleEndian(6, 0) && LittleEndian(6, 0) == [0] + LittleEndian(5, 0);
    assert LittleEndian(5, 0) == [0] + LittleEndian(4, 0) && LittleEndian(4, 0) == [0] + LittleEndian(3, 0);
    assert LittleEndian(3, 0) == [0] + LittleEndian(2, 0) && LittleEndian(2, 0) == [0] + LittleEndian(1, 0);
    assert LittleEndian(1, 0) == [0] + LittleEndian(0, 0);
    TopWordAllowed(true);
    TopWordAllowed(false);
  }

  lemma TopWordAllowed(write: bool)
    ensures AccessVerdict(TOP_VIEW, TOP, WIDTH, write).Ok?
  {
    forall x | TOP <= x < TOP + WIDTH
      ensures ByteAllowed(TOP_VIEW, x, write)
    {
      assert Contains(TOP_VIEW.image.mappings[0].range, x);
      assert Contains(TOP_VIEW.plan.regions[0].range, x);
    }
    AcceptedIffEveryByteAllowed(TOP_VIEW, TOP, WIDTH, write);
  }
}
