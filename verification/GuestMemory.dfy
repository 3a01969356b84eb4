/** Checked guest memory: the access validator, reads and writes, and how they fit the planner. */
module GuestMemory {
  import opened Machine
  import opened GuestRanges
  import opened MemoryPlan

  datatype Image = Image(mappings: seq<MappingIntent>, stack: GuestRange)

  datatype MemoryErrorCode =
    | PreparedMemoryUnavailable | GuestMemoryUnmapped | PermissionDenied | RangeOverflow
  datatype MemoryError = MemoryError(code: MemoryErrorCode, address: Option<int>)

  /** What an access check depends on. */
  datatype View = View(image: Image, plan: Plan, available: bool)

  // ----- byte by byte -----

  predicate Allows(p: Permissions, write: bool) {
    if write then p.write else p.read
  }

  ghost predicate IntentCovers(image: Image, a: int) {
    exists k :: 0 <= k < |image.mappings| && Contains(image.mappings[k].range, a)
  }

  ghost predicate IntentAllows(image: Image, a: int, write: bool) {
    || Contains(image.stack, a)
    || exists k :: 0 <= k < |image.mappings| && Contains(image.mappings[k].range, a)
                   && Allows(image.mappings[k].permissions, write)
  }

  ghost predicate PlanAllows(plan: Plan, a: int, write: bool) {
    exists k :: 0 <= k < |plan.regions| && Contains(plan.regions[k].range, a)
                && Allows(plan.regions[k].permissions, write)
  }

  ghost predicate ByteAllowed(v: View, a: int, write: bool) {
    IntentAllows(v.image, a, write) && PlanAllows(v.plan, a, write)
  }

  /** Why one byte is refused. */
  ghost function Denial(v: View, a: int, write: bool): (code: MemoryErrorCode) {
    if !IntentAllows(v.image, a, write) then
      if IntentCovers(v.image, a) then PermissionDenied else GuestMemoryUnmapped
    else if InSomeRegion(v.plan.regions, a) then PermissionDenied
    else PreparedMemoryUnavailable
  }

  /** The first byte of `[a, end)` that is not allowed, or `end`. */
  ghost function FirstDenied(v: View, a: int, end: int, write: bool): (r: int)
    requires a <= end
    ensures a <= r <= end
    ensures forall x :: a <= x < r ==> ByteAllowed(v, x, write)
    ensures r < end ==> !ByteAllowed(v, r, write)
    decreases end - a
  {
    if a == end || !ByteAllowed(v, a, write) then a else FirstDenied(v, a + 1, end, write)
  }

  /** What validation must answer: yes when every byte is allowed, otherwise the first offender. */
  ghost function AccessVerdict(v: View, address: u64, n: u64, write: bool): (r: Result<int, MemoryError>) {
    if !v.available then Err(MemoryError(PreparedMemoryUnavailable, None))
    else if n == 0 then Ok(0)
    else if address + n > TWO64 then Err(MemoryError(RangeOverflow, Some(address)))
    else
      var first := FirstDenied(v, address, address + n, write);
      if first == address + n then Ok(n) else Err(MemoryError(Denial(v, first, write), Some(first)))
  }

  lemma {:induction false} FirstDeniedAt(v: View, a: int, end: int, write: bool, r: int)
    requires a <= r <= end && (forall x :: a <= x < r ==> ByteAllowed(v, x, write))
    requires r < end ==> !ByteAllowed(v, r, write)
    ensures FirstDenied(v, a, end, write) == r
    decreases end - a
  {
    hide ByteAllowed;
    if a < r {
      FirstDeniedAt(v, a + 1, end, write, r);
    }
  }

  /** Acceptance is exactly byte-wise permission. */
  lemma AcceptedIffEveryByteAllowed(v: View, address: u64, n: u64, write: bool)
    requires v.available && 0 < n && address + n <= TWO64
    ensures AccessVerdict(v, address, n, write).Ok? <==>
            forall x :: address <= x < address + n ==> ByteAllowed(v, x, write)
  {
    hide ByteAllowed, Denial;
    if forall x :: address <= x < address + n ==> ByteAllowed(v, x, write) {
      FirstDeniedAt(v, address, address + n, write, address + n);
    }
  }

  // ----- bytes of memory -----

  type Bytes = map<int, byte>

  function ByteOf(m: Bytes, a: int): (b: byte) {
    if a in m then m[a] else 0
  }

  function ReadBytes(m: Bytes, a: int, n: nat): (s: seq<byte>)
    ensures |s| == n && forall i :: 0 <= i < n ==> s[i] == ByteOf(m, a + i)
    decreases n
  {
    if n == 0 then [] else [ByteOf(m, a)] + ReadBytes(m, a + 1, n - 1)
  }

  function WriteBytes(m: Bytes, a: int, s: seq<byte>): (r: Bytes)
    ensures forall x :: ByteOf(r, x) == if a <= x < a + |s| then s[x - a] else ByteOf(m, x)
    decreases |s|
  {
    if s == [] then m else WriteBytes(m[a := s[0]], a + 1, s[1..])
  }

  class GuestMemory {
    var image: Image
    var plan: Plan
    var available: bool
    var epoch: u64
    var bytes: Bytes

    constructor (image: Image, plan: Plan, available: bool, epoch: u64, bytes: Bytes)
      ensures CurrentView() == View(image, plan, available) && this.epoch == epoch && this.bytes == bytes
    {
      this.image, this.plan, this.available, this.epoch, this.bytes := image, plan, available, epoch, bytes;
    }

    function CurrentView(): (v: View)
      reads this
    {
      View(image, plan, available)
    }

    /** `current_mapping_epoch`: zero when there is nothing prepared. */
    function CurrentEpoch(): (e: u64)
      reads this
      ensures e != 0 <==> epoch != 0 && available && |plan.regions| > 0
      ensures e != 0 ==> e == epoch
    {
      if available && plan.regions != [] then epoch else 0
    }

    /** How far past `cursor` some guest mapping that allows the access, or the stack, reaches. */
    method IntentCoverage(cursor: u64, write: bool) returns (best: int, withoutPermission: bool)
      ensures best >= 0 && (best > 0 <==> IntentAllows(image, cursor, write))
      ensures forall x :: cursor <= x < cursor + best ==> IntentAllows(image, x, write)
      ensures best == 0 ==> (withoutPermission <==> IntentCovers(image, cursor))
    {
      best, withoutPermission := 0, false;
      var k := 0;
      while k < |image.mappings|
        invariant 0 <= k <= |image.mappings| && best >= 0
        invariant forall x :: cursor <= x < cursor + best ==> IntentAllows(image, x, write)
        invariant best == 0 ==>
                    forall j :: 0 <= j < k && Contains(image.mappings[j].range, cursor) ==>
                      !Allows(image.mappings[j].permissions, write)
        invariant withoutPermission <==>
                    exists j :: 0 <= j < k && Contains(image.mappings[j].range, cursor)
                                && !Allows(image.mappings[j].permissions, write)
      {
        var m := image.mappings[k];
        if Contains(m.range, cursor) {
          if !Allows(m.permissions, write) {
            withoutPermission := true;
          } else {
            var offset := cursor - m.range.base;
            var reach := m.range.size - offset;
            forall x | cursor <= x < cursor + reach
              ensures IntentAllows(image, x, write)
            {
              assert Contains(image.mappings[k].range, x);
            }
            best := if best < reach then reach else best;
          }
        }
        k := k + 1;
      }
      if Contains(image.stack, cursor) {
        var reach := image.stack.size - (cursor - image.stack.base);
        best := if best < reach then reach else best;
      }
      assert best > 0 ==> IntentAllows(image, cursor, write);
    }

    method PlanCoverage(cursor: u64, write: bool) returns (best: int, withoutPermission: bool)
      ensures best >= 0 && (best > 0 <==> PlanAllows(plan, cursor, write))
      ensures forall x :: cursor <= x < cursor + best ==> PlanAllows(plan, x, write)
      ensures best == 0 ==> (withoutPermission <==> InSomeRegion(plan.regions, cursor))
    {
      best, withoutPermission := 0, false;
      var k := 0;
      while k < |plan.regions|
        invariant 0 <= k <= |plan.regions| && best >= 0
        invariant forall x :: cursor <= x < cursor + best ==> PlanAllows(plan, x, write)
        invariant best == 0 ==>
                    forall j :: 0 <= j < k && Contains(plan.regions[j].range, cursor) ==>
                      !Allows(plan.regions[j].permissions, write)
        invariant withoutPermission <==>
                    exists j :: 0 <= j < k && Contains(plan.regions[j].range, cursor)
                                && !Allows(plan.regions[j].permissions, write)
      {
        var r := plan.regions[k];
        if Contains(r.range, cursor) {
          if !Allows(r.permissions, write) {
            withoutPermission := true;
          } else {
            var reach := r.range.size - (cursor - r.range.base);
            forall x | cursor <= x < cursor + reach
              ensures PlanAllows(plan, x, write)
            {
              assert Contains(plan.regions[k].range, x);
            }
            best := if best < reach then reach else best;
          }
        }
        k := k + 1;
      }
      assert best > 0 ==> PlanAllows(plan, cursor, write);
    }

    /** `GuestMemoryAccess::validate`: the greedy chunk walk gives the byte-by-byte verdict. */
    method Validate(address: u64, n: u64, write: bool) returns (r: Result<int, MemoryError>)
      ensures r == AccessVerdict(CurrentView(), address, n, write)
    {
      hide IntentAllows, PlanAllows, IntentCovers, InSomeRegion;
      if !available {
        return Err(MemoryError(PreparedMemoryUnavailable, None));
      }
      if n == 0 {
        return Ok(0);
      }
      if address > U64_MAX - (n - 1) {
        return Err(MemoryError(RangeOverflow, Some(address)));
      }
      ghost var v, end := CurrentView(), address + n;
      var cursor := address;
      var remaining := n;
      while remaining != 0
        invariant 0 <= remaining <= n && address <= cursor
        invariant remaining > 0 ==> cursor + remaining == end
        invariant forall x :: address <= x < end - remaining ==> ByteAllowed(v, x, write)
        decreases remaining
      {
        var best, withoutPermission := IntentCoverage(cursor, write);
        if best == 0 {
          FirstDeniedAt(v, address, end, write, cursor);
          return Err(MemoryError(if withoutPermission then PermissionDenied else GuestMemoryUnmapped, Some(cursor)));
        }
        var prepared, preparedWithout := PlanCoverage(cursor, write);
        if prepared == 0 {
          FirstDeniedAt(v, address, end, write, cursor);
          return Err(MemoryError(if preparedWithout then PermissionDenied else PreparedMemoryUnavailable,
                                 Some(cursor)));
        }
        var reach := if best < prepared then best else prepared;
        var chunk := if remaining < reach then remaining else reach;
        remaining := remaining - chunk;
        if remaining == 0 {
          break;
        }
        // The cursor overflow exit is unreachable: bytes remain after the chunk.
        assert cursor <= U64_MAX - chunk;
        cursor := cursor + chunk;
      }
      FirstDeniedAt(v, address, end, write, end);
      return Ok(n);
    }

    /** `GuestMemoryAccess::preflight_write`. */
    method PreflightWrite(address: u64, n: u64) returns (r: Result<int, MemoryError>)
      ensures r == AccessVerdict(CurrentView(), address, n, true)
    {
      r := Validate(address, n, true);
    }

    /** `GuestMemoryAccess::read`. */
    method Read(address: u64, n: u64) returns (r: Result<seq<byte>, MemoryError>)
      ensures r.Ok? <==> AccessVerdict(CurrentView(), address, n, false).Ok?
      ensures r.Ok? ==> r.value == ReadBytes(bytes, address, n)
      ensures r.Err? ==> r.error == AccessVerdict(CurrentView(), address, n, false).error
    {
      var validated := Validate(address, n, false);
      if validated.Err? {
        return Err(validated.error);
      }
      return Ok(ReadBytes(bytes, address, n));
    }

    /** `GuestMemoryAccess::write`: a refused write changes nothing. */
    method Write(address: u64, input: seq<byte>) returns (r: Result<int, MemoryError>)
      requires |input| < TWO64
      modifies this`bytes
      ensures r == AccessVerdict(CurrentView(), address, |input|, true)
      ensures bytes == if r.Ok? then WriteBytes(old(bytes), address, input) else old(bytes)
    {
      r := Validate(address, |input|, true);
      if r.Ok? {
        bytes := WriteBytes(bytes, address, input);
      }
    }

    /** `is_exact_executable_address`: both the guest image and the plan still authorise execution. */
    method IsExactExecutable(a: u64) returns (r: bool)
      ensures r <==> ExactExecutableAt(CurrentView(), a)
    {
      if !available {
        return false;
      }
      var guest := false;
      var k := 0;
      while k < |image.mappings| && !guest
        invariant 0 <= k <= |image.mappings|
        invariant guest <==> exists j :: 0 <= j < k && image.mappings[j].permissions.execute
                                         && Contains(image.mappings[j].range, a)
      {
        guest := image.mappings[k].permissions.execute && Contains(image.mappings[k].range, a);
        k := k + 1;
      }
      if !guest {
        return false;
      }
      k := 0;
      while k < |plan.regions|
        invariant 0 <= k <= |plan.regions|
        invariant !exists j :: 0 <= j < k && plan.regions[j].permissions.execute && Contains(plan.regions[j].range, a)
      {
        if plan.regions[k].permissions.execute && Contains(plan.regions[k].range, a) {
          return true;
        }
        k := k + 1;
      }
      return false;
    }
  }

  ghost predicate ExactExecutableAt(v: View, a: int) {
    && v.available
    && (exists k :: 0 <= k < |v.image.mappings| && v.image.mappings[k].permissions.execute
                    && Contains(v.image.mappings[k].range, a))
    && (exists k :: 0 <= k < |v.plan.regions| && v.plan.regions[k].permissions.execute
                    && Contains(v.plan.regions[k].range, a))
  }

  /** A byte that the guest may read: the stack or a readable mapping, and a readable region. */
  ghost predicate ReadableByte(v: View, x: int) {
    && (Contains(v.image.stack, x)
        || exists k :: 0 <= k < |v.image.mappings| && Contains(v.image.mappings[k].range, x)
                       && v.image.mappings[k].permissions.read)
    && (exists k :: 0 <= k < |v.plan.regions| && Contains(v.plan.regions[k].range, x)
                    && v.plan.regions[k].permissions.read)
  }

  /** A byte that the guest may write: the stack or a writable mapping, and a writable region. */
  ghost predicate WritableByte(v: View, x: int) {
    && (Contains(v.image.stack, x)
        || exists k :: 0 <= k < |v.image.mappings| && Contains(v.image.mappings[k].range, x)
                       && v.image.mappings[k].permissions.write)
    && (exists k :: 0 <= k < |v.plan.regions| && Contains(v.plan.regions[k].range, x)
                    && v.plan.regions[k].permissions.write)
  }

  /** The verdicts over the permissions themselves. */
  lemma VerdictsMean(v: View, address: u64, n: u64)
    requires v.available && 0 < n && address + n <= TWO64
    ensures AccessVerdict(v, address, n, false).Ok? <==> forall x :: address <= x < address + n ==> ReadableByte(v, x)
    ensures AccessVerdict(v, address, n, true).Ok? <==> forall x :: address <= x < address + n ==> WritableByte(v, x)
  {
    hide AccessVerdict, ByteAllowed, ReadableByte, WritableByte;
    AcceptedIffEveryByteAllowed(v, address, n, false);
    AcceptedIffEveryByteAllowed(v, address, n, true);
    forall x
      ensures ByteAllowed(v, x, false) <==> ReadableByte(v, x)
      ensures ByteAllowed(v, x, true) <==> WritableByte(v, x)
    {
      ByteMeans(v, x);
    }
  }

  lemma ByteMeans(v: View, x: int)
    ensures ByteAllowed(v, x, false) <==> ReadableByte(v, x)
    ensures ByteAllowed(v, x, true) <==> WritableByte(v, x)
  {
  }

  // ----- composition with the planner -----

  /** The plan was built from this very image. */
  ghost predicate PlannedFrom(image: Image, plan: Plan) {
    exists req: Request :: req.mappings == image.mappings && req.stack == image.stack && PlanMatches(req, plan)
  }

  /** On a plan built from the image, guest intent is enough: the host plan never takes away what a
      mapping or the stack grants. */
  lemma PlanGrantsIntent(image: Image, plan: Plan, a: int, write: bool)
    requires PlannedFrom(image, plan) && IntentAllows(image, a, write)
    ensures PlanAllows(plan, a, write)
  {
    var req: Request :| req.mappings == image.mappings && req.stack == image.stack && PlanMatches(req, plan);
    var ps: int, claims := req.pageSize, Claims(req);
    var c := GrantingClaim(req, a, write);
    assert Touches(c.range, a / ps, ps);
    assert Touched(claims, a / ps, ps);
    assert InSomeRegion(plan.regions, a);
    var i :| 0 <= i < |plan.regions| && Contains(plan.regions[i].range, a);
    assert RegionMeans(claims, ps, plan.regions[i], a / ps);
    assert Allows(PagePermissions(claims, a / ps, ps), write);
  }

  lemma GrantingClaim(req: Request, a: int, write: bool) returns (c: Claim)
    requires IntentAllows(Image(req.mappings, req.stack), a, write)
    ensures c in Claims(req) && Contains(c.range, a) && Allows(c.permissions, write)
  {
    if Contains(req.stack, a) {
      c := StackClaim(req.stack);
      assert Claims(req)[|req.mappings|] == c;
    } else {
      var k :| 0 <= k < |req.mappings| && Contains(req.mappings[k].range, a)
               && Allows(req.mappings[k].permissions, write);
      c := MappingClaims(req.mappings)[k];
      assert Claims(req)[k] == c;
    }
  }

  /** So validation on such a plan is decided by the image alone. */
  lemma ValidationReducesToIntent(v: View, address: u64, n: u64, write: bool)
    requires v.available && 0 < n && address + n <= TWO64 && PlannedFrom(v.image, v.plan)
    ensures var verdict := AccessVerdict(v, address, n, write);
            && (verdict.Ok? <==> forall x :: address <= x < address + n ==> IntentAllows(v.image, x, write))
            && (verdict.Err? ==>
                  && verdict.error.address.Some?
                  && var x := verdict.error.address.value;
                     && address <= x < address + n && !IntentAllows(v.image, x, write)
                     && (forall y :: address <= y < x ==> IntentAllows(v.image, y, write))
                     && verdict.error.code
                     == if IntentCovers(v.image, x) then PermissionDenied else GuestMemoryUnmapped)
  {
    hide IntentAllows, PlanAllows, IntentCovers, PlannedFrom;
    forall x
      ensures ByteAllowed(v, x, write) <==> IntentAllows(v.image, x, write)
    {
      if IntentAllows(v.image, x, write) {
        PlanGrantsIntent(v.image, v.plan, x, write);
      }
    }
    AcceptedIffEveryByteAllowed(v, address, n, write);
  }

  /** On a matching plan, a byte that may be written lies in no executable region. */
  lemma WritableIsNotExecutable(req: Request, plan: Plan, a: int, i: nat)
    requires PlanMatches(req, plan) && PlanAllows(plan, a, true)
    requires i < |plan.regions| && Contains(plan.regions[i].range, a)
    ensures !plan.regions[i].permissions.execute
  {
    hide RegionMeans, Claims;
    var k :| 0 <= k < |plan.regions| && Contains(plan.regions[k].range, a) && plan.regions[k].permissions.write;
    assert RegionShape(plan.regions[k], req.pageSize);
    assert k == i;
  }

  // ----- guest_write_owned_by_plan -----

  predicate FullyWithin(r: GuestRange, target: u64, n: u64) {
    r.base <= target && target + n <= r.base + r.size
  }

  predicate Intersects(r: GuestRange, target: u64, n: u64) {
    r.size > 0 && target < r.base + r.size && r.base < target + n
  }

  ghost predicate HoldsAll(r: GuestRange, target: u64, n: u64) {
    forall x :: target <= x < target + n ==> Contains(r, x)
  }

  ghost predicate HoldsSome(r: GuestRange, target: u64, n: u64) {
    exists x :: target <= x < target + n && Contains(r, x)
  }

  /** The two range tests, byte by byte. */
  lemma RangeTestsMean(r: GuestRange, target: u64, n: u64)
    requires n > 0
    ensures FullyWithin(r, target, n) <==> HoldsAll(r, target, n)
    ensures Intersects(r, target, n) <==> HoldsSome(r, target, n)
  {
    if HoldsAll(r, target, n) {
      assert Contains(r, target) && Contains(r, target + n - 1);
    }
    if Intersects(r, target, n) {
      var x := if r.base > target then r.base else target;
      assert Contains(r, x);
    }
  }

  /** Ownership, byte by byte: one writable mapping or the stack holds every byte, no mapping without
      write permission holds any, and the first region that holds every byte is writable and not
      executable. */
  ghost predicate OwnsEveryByte(plan: Plan, image: Image, target: u64, n: u64) {
    && (|| HoldsAll(image.stack, target, n)
        || exists k :: 0 <= k < |image.mappings| && image.mappings[k].permissions.write
                       && HoldsAll(image.mappings[k].range, target, n))
    && (forall k :: 0 <= k < |image.mappings| && HoldsSome(image.mappings[k].range, target, n) ==>
          image.mappings[k].permissions.write)
    && (exists k :: 0 <= k < |plan.regions| && HoldsAll(plan.regions[k].range, target, n)
                    && plan.regions[k].permissions.write && !plan.regions[k].permissions.execute
                    && forall j :: 0 <= j < k ==> !HoldsAll(plan.regions[j].range, target, n))
  }

  lemma OwnershipMeans(plan: Plan, image: Image, target: u64, n: u64)
    requires n > 0
    ensures IntentOwns(image, target, n) && RegionOwns(plan, target, n) <==> OwnsEveryByte(plan, image, target, n)
  {
    hide FullyWithin, Intersects, HoldsAll, HoldsSome;
    forall r: GuestRange
      ensures FullyWithin(r, target, n) <==> HoldsAll(r, target, n)
      ensures Intersects(r, target, n) <==> HoldsSome(r, target, n)
    {
      RangeTestsMean(r, target, n);
    }
  }

  ghost predicate IntentOwns(image: Image, target: u64, n: u64) {
    && (|| FullyWithin(image.stack, target, n)
        || exists k :: 0 <= k < |image.mappings| && FullyWithin(image.mappings[k].range, target, n)
                       && image.mappings[k].permissions.write)
    && (forall k :: 0 <= k < |image.mappings| && Intersects(image.mappings[k].range, target, n) ==>
          image.mappings[k].permissions.write)
  }

  /** The first region that holds the whole write is writable and not executable. */
  ghost predicate RegionOwns(plan: Plan, target: u64, n: u64) {
    exists k :: 0 <= k < |plan.regions| && FullyWithin(plan.regions[k].range, target, n)
                && plan.regions[k].permissions.write && !plan.regions[k].permissions.execute
                && forall j :: 0 <= j < k ==> !FullyWithin(plan.regions[j].range, target, n)
  }

  /** `guest_write_owned_by_plan`. */
  method GuestWriteOwnedByPlan(plan: Plan, image: Image, target: u64, n: u64) returns (r: bool)
    ensures r <==> 0 < n && plan.hostPageSize != 0 && target + n <= U64_MAX
                   && IntentOwns(image, target, n) && RegionOwns(plan, target, n)
    ensures r <==> 0 < n && plan.hostPageSize != 0 && target + n <= U64_MAX && OwnsEveryByte(plan, image, target, n)
  {
    hide OwnsEveryByte;
    if n > 0 {
      OwnershipMeans(plan, image, target, n);
    }
    if n == 0 || plan.hostPageSize == 0 {
      return false;
    }
    if n > U64_MAX - target {
      return false;
    }
    var owned := FullyWithin(image.stack, target, n);
    var k := 0;
    while k < |image.mappings|
      invariant 0 <= k <= |image.mappings|
      invariant owned <==> FullyWithin(image.stack, target, n)
                           || exists j :: 0 <= j < k && FullyWithin(image.mappings[j].range, target, n)
                                          && image.mappings[j].permissions.write
      invariant forall j :: 0 <= j < k && Intersects(image.mappings[j].range, target, n) ==>
                  image.mappings[j].permissions.write
    {
      var m := image.mappings[k];
      if FullyWithin(m.range, target, n) && m.permissions.write {
        owned := true;
      }
      if Intersects(m.range, target, n) && !m.permissions.write {
        return false;
      }
      k := k + 1;
    }
    if !owned {
      return false;
    }
    k := 0;
    while k < |plan.regions|
      invariant 0 <= k <= |plan.regions|
      invariant forall j :: 0 <= j < k ==> !FullyWithin(plan.regions[j].range, target, n)
    {
      if FullyWithin(plan.regions[k].range, target, n) {
        return plan.regions[k].permissions.write && !plan.regions[k].permissions.execute;
      }
      k := k + 1;
    }
    return false;
  }

  /** An owned write is one the validator accepts. */
  lemma OwnedWritesAreAccepted(v: View, target: u64, n: u64)
    requires v.available && 0 < n && target + n <= U64_MAX
    requires IntentOwns(v.image, target, n) && RegionOwns(v.plan, target, n)
    ensures AccessVerdict(v, target, n, true) == Ok(n)
  {
    hide Denial;
    forall x | target <= x < target + n
      ensures ByteAllowed(v, x, true)
    {
      var r :| 0 <= r < |v.plan.regions| && FullyWithin(v.plan.regions[r].range, target, n)
               && v.plan.regions[r].permissions.write;
      assert Contains(v.plan.regions[r].range, x);
      if FullyWithin(v.image.stack, target, n) {
        assert Contains(v.image.stack, x);
      } else {
        var k :| 0 <= k < |v.image.mappings| && FullyWithin(v.image.mappings[k].range, target, n)
                 && v.image.mappings[k].permissions.write;
        assert Contains(v.image.mappings[k].range, x);
      }
    }
    AcceptedIffEveryByteAllowed(v, target, n, true);
  }
}
