/** Windows reservation ranges: every plan region rounded out to allocation granules, then merged. */
module Reservation {
  import opened Machine
  import opened Arithmetic
  import opened GuestRanges
  import opened MemoryPlan
  import opened Sorting

  datatype ReservationError = ReservationError(address: Option<int>)

  // ----- granule by granule -----

  /** Some region has a byte in the granule. */
  ghost predicate GranuleNeeded(regions: seq<Region>, granule: int, g: int)
    requires g > 0
  {
    exists i :: 0 <= i < |regions| && Touches(regions[i].range, granule, g)
  }

  ghost predicate GranuleReserved(ranges: seq<GuestRange>, granule: int, g: int) {
    exists i :: 0 <= i < |ranges| && Contains(ranges[i], granule * g)
  }

  predicate Aligned(r: GuestRange, g: int)
    requires g > 0
  {
    r.size > 0 && r.base % g == 0 && r.size % g == 0
  }

  /** Sorted, and with a gap between neighbours. */
  ghost predicate Separated(ranges: seq<GuestRange>) {
    forall i, j :: 0 <= i < j < |ranges| ==> ranges[i].base + ranges[i].size < ranges[j].base
  }

  /** The region reaches into the topmost granule, whose end is not a 64-bit address. */
  predicate ReachesTop(r: Region, g: int)
    requires g > 0
  {
    r.range.size > 0 && (r.range.base + r.range.size - 1) / g == U64_MAX / g
  }

  // ----- ranges as granule intervals -----

  /** The range is the granules from `first` up to but not including `end`, and ends below 2^64. */
  predicate IsGranules(r: GuestRange, g: int, first: int, end: int) {
    g > 0 && first < end && r.base == first * g && r.base + r.size == end * g < TWO64
  }

  lemma GranulesContain(r: GuestRange, g: int, first: int, end: int, granule: int)
    requires IsGranules(r, g, first, end)
    ensures Contains(r, granule * g) <==> first <= granule < end
    ensures Aligned(r, g)
  {
    MultipleDivides(g, granule);
    PageOrder(granule * g, first, g);
    PageOrder(granule * g, end, g);
    MultipleDivides(g, first);
    MultipleDivides(g, end - first);
    assert end * g - first * g == (end - first) * g;
    MulOrder(g, first, end);
  }

  /** The arithmetic of rounding `[base, last]` out to granules `[first, block]`. */
  lemma RoundingFacts(base: u64, last: u64, g: u64, first: int, block: int)
    requires IsPowerOfTwo(g) && g > 0 && base <= last && first == base / g && block == last / g
    ensures 0 <= first <= block <= U64_MAX / g
    ensures 0 <= first * g <= base && first * g < (block + 1) * g
    ensures block * g + g == (block + 1) * g
    ensures block * g > U64_MAX - g <==> block == U64_MAX / g
  {
    hide IsPowerOfTwo;
    DivMonotone(0, base, g);
    DivMonotone(base, last, g);
    DivMonotone(last, U64_MAX, g);
    TopGranule(g, block);
    PageOrder(base, first, g);
    MulOrder(g, first, block + 1);
    NonNegative(g, first);
  }

  /** Rounding one region out to granules; the sum that does not fit is the error exit. */
  method RoundOut(r: Region, g: u64) returns (out: Option<GuestRange>)
    requires IsPowerOfTwo(g) && g > 0 && r.range.size > 0
    ensures out.None? <==> ReachesTop(r, g)
    ensures out.Some? ==> IsRounded(r.range, g, out.value)
  {
    hide IsPowerOfTwo;
    var base := r.range.base;
    var last := base + (r.range.size - 1);
    var lastBlock := last / g;
    RoundingFacts(base, last, g, base / g, lastBlock);
    // last_block > max / granularity is unreachable: last is itself at most max.
    assert lastBlock <= U64_MAX / g;
    var reserveBase := (base / g) * g;
    var reserveLastBase := lastBlock * g;
    if reserveLastBase > U64_MAX - g {
      return None;
    }
    var reserveEnd := reserveLastBase + g;
    return Some(RawRange(reserveBase, reserveEnd - reserveBase));
  }

  lemma NonNegative(g: int, q: int)
    requires g > 0 && q >= 0
    ensures q * g >= 0
  {
    if q > 0 { MulAtLeast(g, q); }
  }

  lemma TopGranule(g: u64, block: int)
    requires IsPowerOfTwo(g) && block <= U64_MAX / g
    ensures g > 0 && (block * g > U64_MAX - g <==> block == U64_MAX / g)
    ensures block * g + g == (block + 1) * g
  {
    hide IsPowerOfTwo;
    WholePages(g);
    var top := U64_MAX / g;
    SumOfMultiples(g, block, 1);
    SumOfMultiples(g, top, 1);
    if block < top {
      MultiplesOrdered(g, block + 1, top);
    }
  }

  // ----- rounding all regions -----

  /** `out` is `r` rounded out to whole granules. */
  predicate IsRounded(r: GuestRange, g: int, out: GuestRange)
    requires g > 0
  {
    r.size > 0 && IsGranules(out, g, r.base / g, (r.base + r.size - 1) / g + 1)
  }

  ghost predicate RoundedFrom(regions: seq<Region>, g: int, out: GuestRange)
    requires g > 0
  {
    exists i :: 0 <= i < |regions| && IsRounded(regions[i].range, g, out)
  }

  ghost predicate HasRounded(r: GuestRange, g: int, ranges: seq<GuestRange>)
    requires g > 0
  {
    exists k :: 0 <= k < |ranges| && IsRounded(r, g, ranges[k])
  }

  ghost predicate Rounded(regions: seq<Region>, g: int, ranges: seq<GuestRange>, n: nat)
    requires g > 0 && n <= |regions|
  {
    && (forall k :: 0 <= k < |ranges| ==> RoundedFrom(regions, g, ranges[k]))
    && (forall i :: 0 <= i < n && regions[i].range.size > 0 ==> HasRounded(regions[i].range, g, ranges))
  }

  /** Rounding reserves exactly the granules the range touches. */
  lemma RoundedTouches(r: GuestRange, g: int, out: GuestRange, granule: int)
    requires g > 0 && IsRounded(r, g, out)
    ensures Contains(out, granule * g) <==> Touches(r, granule, g)
  {
    hide Touches;
    GranulesContain(out, g, r.base / g, (r.base + r.size - 1) / g + 1, granule);
    TouchesIsInterval(r, granule, g);
  }

  method RoundAll(regions: seq<Region>, g: u64) returns (r: Result<seq<GuestRange>, ReservationError>)
    requires IsPowerOfTwo(g) && g > 0
    ensures r.Ok? <==> forall i :: 0 <= i < |regions| ==> !ReachesTop(regions[i], g)
    ensures r.Ok? ==> Rounded(regions, g, r.value, |regions|)
    ensures r.Err? ==>
              exists i :: 0 <= i < |regions| && r.error == ReservationError(Some(regions[i].range.base))
                          && ReachesTop(regions[i], g) && forall j :: 0 <= j < i ==> !ReachesTop(regions[j], g)
  {
    hide IsPowerOfTwo;
    var ranges: seq<GuestRange> := [];
    var i := 0;
    while i < |regions|
      invariant 0 <= i <= |regions|
      invariant forall j :: 0 <= j < i ==> !ReachesTop(regions[j], g)
      invariant Rounded(regions, g, ranges, i)
    {
      if regions[i].range.size != 0 {
        var out := RoundOut(regions[i], g);
        if out.None? {
          return Err(ReservationError(Some(regions[i].range.base)));
        }
        ghost var before := ranges;
        ranges := ranges + [out.value];
        assert IsRounded(regions[i].range, g, out.value);
        assert ranges[|before|] == out.value;
        assert forall k :: 0 <= k < |before| ==> ranges[k] == before[k];
        forall j | 0 <= j < i && regions[j].range.size > 0
          ensures HasRounded(regions[j].range, g, ranges)
        {
          assert HasRounded(regions[j].range, g, before);
        }
      }
      i := i + 1;
    }
    return Ok(ranges);
  }

  // ----- merging -----

  ghost predicate GranuleRange(r: GuestRange, g: int) {
    exists first, end :: IsGranules(r, g, first, end)
  }

  ghost predicate SameGranules(a: seq<GuestRange>, b: seq<GuestRange>, g: int) {
    forall granule :: GranuleReserved(a, granule, g) <==> GranuleReserved(b, granule, g)
  }

  ghost predicate AllGranules(ranges: seq<GuestRange>, g: int) {
    forall k :: 0 <= k < |ranges| ==> GranuleRange(ranges[k], g)
  }

  lemma EndFits(r: GuestRange, g: int)
    requires GranuleRange(r, g)
    ensures r.base + r.size < TWO64
  {
  }

  /** Two granule ranges that meet or overlap, replaced by their hull. */
  lemma HullGranules(a: GuestRange, b: GuestRange, hull: GuestRange, g: int)
    requires GranuleRange(a, g) && GranuleRange(b, g) && a.base <= b.base <= a.base + a.size
    requires hull.base == a.base
    requires hull.base + hull.size == (if a.base + a.size < b.base + b.size then b.base + b.size else a.base + a.size)
    ensures GranuleRange(hull, g)
    ensures forall granule :: Contains(hull, granule * g) <==> Contains(a, granule * g) || Contains(b, granule * g)
  {
    var f, e :| IsGranules(a, g, f, e);
    var f', e' :| IsGranules(b, g, f', e');
    GranuleOrder(g, e, e');
    GranuleOrder(g, f', e);
    GranuleOrder(g, f, f');
    assert IsGranules(hull, g, f, if e < e' then e' else e);
    forall granule
      ensures Contains(hull, granule * g) <==> Contains(a, granule * g) || Contains(b, granule * g)
    {
      GranulesContain(a, g, f, e, granule);
      GranulesContain(b, g, f', e', granule);
      GranulesContain(hull, g, f, if e < e' then e' else e, granule);
    }
  }

  lemma GranuleOrder(g: int, x: int, y: int)
    requires g > 0
    ensures x * g < y * g <==> x < y
  {
    MultipleDivides(g, x);
    PageOrder(x * g, y, g);
  }

  lemma ReservedAppend(a: seq<GuestRange>, r: GuestRange, granule: int, g: int)
    ensures GranuleReserved(a + [r], granule, g) <==> GranuleReserved(a, granule, g) || Contains(r, granule * g)
  {
    var b := a + [r];
    assert b[|a|] == r;
    assert forall i :: 0 <= i < |a| ==> b[i] == a[i];
  }

  /** Appending keeps the separation when there is a gap. */
  lemma AppendSeparated(merged: seq<GuestRange>, range: GuestRange, g: int)
    requires Separated(merged) && AllGranules(merged, g) && GranuleRange(range, g)
    requires merged != [] ==> merged[|merged| - 1].base + merged[|merged| - 1].size < range.base
    ensures Separated(merged + [range]) && AllGranules(merged + [range], g)
  {
    hide GranuleRange;
    var r := merged + [range];
    forall i, j | 0 <= i < j < |r|
      ensures r[i].base + r[i].size < r[j].base
    {
      if j == |merged| && i < |merged| - 1 {
        assert merged[i].base + merged[i].size < merged[|merged| - 1].base;
      }
    }
  }

  lemma SameGranulesAppend(a: seq<GuestRange>, b: seq<GuestRange>, range: GuestRange, g: int)
    requires SameGranules(a, b, g)
    ensures SameGranules(a + [range], b + [range], g)
  {
    hide GranuleReserved;
    forall granule
      ensures GranuleReserved(a + [range], granule, g) <==> GranuleReserved(b + [range], granule, g)
    {
      ReservedAppend(a, range, granule, g);
      ReservedAppend(b, range, granule, g);
    }
  }

  /** Replacing the last range by its hull with the next one. */
  lemma HullStep(merged: seq<GuestRange>, range: GuestRange, hull: GuestRange, g: int)
    requires Separated(merged) && AllGranules(merged, g) && GranuleRange(range, g) && merged != []
    requires var a := merged[|merged| - 1];
             && a.base <= range.base <= a.base + a.size && hull.base == a.base
             && hull.base + hull.size
             == (if a.base + a.size < range.base + range.size then range.base + range.size else a.base + a.size)
    ensures var r := merged[..|merged| - 1] + [hull];
            Separated(r) && AllGranules(r, g) && SameGranules(r, merged + [range], g)
  {
    hide GranuleReserved, GranuleRange;
    var init, last := merged[..|merged| - 1], merged[|merged| - 1];
    assert merged == init + [last];
    HullGranules(last, range, hull, g);
    AppendSeparated(init, hull, g);
    forall granule
      ensures GranuleReserved(init + [hull], granule, g) <==> GranuleReserved(merged + [range], granule, g)
    {
      ReservedAppend(init, last, granule, g);
      ReservedAppend(init, hull, granule, g);
      ReservedAppend(merged, range, granule, g);
    }
  }

  lemma SameGranulesTransitive(a: seq<GuestRange>, b: seq<GuestRange>, c: seq<GuestRange>, g: int)
    requires SameGranules(a, b, g) && SameGranules(b, c, g)
    ensures SameGranules(a, c, g)
  {
    hide GranuleReserved;
  }

  /** The merge loop: neighbours that touch or overlap become one. */
  method Merge(ranges: seq<GuestRange>, g: u64) returns (merged: seq<GuestRange>)
    requires SortedBy(ranges, (r: GuestRange) => r.base) && AllGranules(ranges, g)
    ensures Separated(merged) && AllGranules(merged, g) && SameGranules(merged, ranges, g)
  {
    hide GranuleRange, SameGranules, Separated, GranuleReserved, SortedBy;
    merged := [];
    var i := 0;
    StartMerge(g);
    while i < |ranges|
      invariant 0 <= i <= |ranges|
      invariant Separated(merged) && AllGranules(merged, g) && SameGranules(merged, ranges[..i], g)
      invariant i > 0 <==> |merged| > 0
      invariant i > 0 ==> merged[|merged| - 1].base <= ranges[i - 1].base
    {
      var range := ranges[i];
      if i > 0 {
        SortedNeighbours(ranges, i);
      }
      assert ranges[..i + 1] == ranges[..i] + [range];
      SameGranulesAppend(merged, ranges[..i], range, g);
      if |merged| == 0 {
        AppendSeparated(merged, range, g);
        merged := merged + [range];
      } else {
        var previous := merged[|merged| - 1];
        var previousEnd := previous.base + previous.size;
        var rangeEnd := range.base + range.size;
        if range.base > previousEnd {
          AppendSeparated(merged, range, g);
          merged := merged + [range];
        } else {
          var mergedEnd := if previousEnd < rangeEnd then rangeEnd else previousEnd;
          EndFits(previous, g);
          EndFits(range, g);
          var hull := RawRange(previous.base, mergedEnd - previous.base);
          HullStep(merged, range, hull, g);
          SameGranulesTransitive(merged[..|merged| - 1] + [hull], merged + [range], ranges[..i + 1], g);
          merged := merged[..|merged| - 1] + [hull];
        }
      }
      i := i + 1;
    }
    assert ranges[..i] == ranges;
  }

  lemma StartMerge(g: int)
    ensures Separated([]) && SameGranules([], [], g)
  {
  }

  lemma SortedNeighbours(ranges: seq<GuestRange>, i: nat)
    requires SortedBy(ranges, (r: GuestRange) => r.base) && 0 < i < |ranges|
    ensures ranges[i - 1].base <= ranges[i].base
  {
    var key := (r: GuestRange) => r.base;
    assert key(ranges[i - 1]) <= key(ranges[i]);
  }

  /** `build_reservation_ranges`. */
  method BuildReservationRanges(plan: Plan, g: u64) returns (r: Result<seq<GuestRange>, ReservationError>)
    ensures r.Ok? <==>
            IsPowerOfTwo(g) && forall i :: 0 <= i < |plan.regions| ==> g > 0 && !ReachesTop(plan.regions[i], g)
    ensures r.Ok? ==>
              && g > 0 && Separated(r.value)
              && (forall k :: 0 <= k < |r.value| ==> Aligned(r.value[k], g))
              && (forall granule :: GranuleReserved(r.value, granule, g) <==> GranuleNeeded(plan.regions, granule, g))
    ensures r.Err? ==>
              if !IsPowerOfTwo(g) then r.error == ReservationError(None)
              else exists i :: 0 <= i < |plan.regions| && g > 0 && ReachesTop(plan.regions[i], g)
                               && r.error == ReservationError(Some(plan.regions[i].range.base))
                               && forall j :: 0 <= j < i ==> !ReachesTop(plan.regions[j], g)
  {
    if !IsPowerOfTwo(g) {
      return Err(ReservationError(None));
    }
    hide IsPowerOfTwo, GranuleReserved, GranuleNeeded, Touches, GranuleRange;
    PositivePower(g);
    var rounded := RoundAll(plan.regions, g);
    if rounded.Err? {
      return Err(rounded.error);
    }
    var sorted := Sort(rounded.value, (r: GuestRange) => r.base);
    RoundedAreGranules(plan.regions, g, rounded.value);
    SameElementsGranules(rounded.value, sorted, g);
    var merged := Merge(sorted, g);
    forall granule
      ensures GranuleReserved(merged, granule, g) <==> GranuleNeeded(plan.regions, granule, g)
    {
      RoundedMeansNeeded(plan.regions, g, rounded.value, granule);
    }
    forall k | 0 <= k < |merged|
      ensures Aligned(merged[k], g)
    {
      GranuleRangeAligned(merged[k], g);
    }
    return Ok(merged);
  }

  lemma GranuleRangeAligned(r: GuestRange, g: int)
    requires g > 0 && GranuleRange(r, g)
    ensures Aligned(r, g)
  {
    var f, e :| IsGranules(r, g, f, e);
    GranulesContain(r, g, f, e, f);
  }

  lemma RoundedAreGranules(regions: seq<Region>, g: int, ranges: seq<GuestRange>)
    requires g > 0 && Rounded(regions, g, ranges, |regions|)
    ensures AllGranules(ranges, g)
  {
    forall k | 0 <= k < |ranges|
      ensures GranuleRange(ranges[k], g)
    {
      assert RoundedFrom(regions, g, ranges[k]);
    }
  }

  lemma SameElementsGranules(a: seq<GuestRange>, b: seq<GuestRange>, g: int)
    requires AllGranules(a, g) && forall x :: x in b <==> x in a
    ensures AllGranules(b, g) && SameGranules(a, b, g)
  {
    hide GranuleRange, Contains;
    forall k | 0 <= k < |b|
      ensures GranuleRange(b[k], g)
    {
      assert b[k] in a;
    }
    forall granule
      ensures GranuleReserved(a, granule, g) <==> GranuleReserved(b, granule, g)
    {
      assert GranuleReserved(a, granule, g) <==> exists x :: x in a && Contains(x, granule * g);
      assert GranuleReserved(b, granule, g) <==> exists x :: x in b && Contains(x, granule * g);
    }
  }

  lemma RoundedMeansNeeded(regions: seq<Region>, g: int, ranges: seq<GuestRange>, granule: int)
    requires g > 0 && Rounded(regions, g, ranges, |regions|)
    ensures GranuleReserved(ranges, granule, g) <==> GranuleNeeded(regions, granule, g)
  {
    hide Touches, IsRounded, Contains;
    if GranuleReserved(ranges, granule, g) {
      var k :| 0 <= k < |ranges| && Contains(ranges[k], granule * g);
      assert RoundedFrom(regions, g, ranges[k]);
      var i :| 0 <= i < |regions| && IsRounded(regions[i].range, g, ranges[k]);
      RoundedTouches(regions[i].range, g, ranges[k], granule);
    }
    if GranuleNeeded(regions, granule, g) {
      var i :| 0 <= i < |regions| && Touches(regions[i].range, granule, g);
      assert regions[i].range.size > 0 by {
        if regions[i].range.size == 0 { EmptyTouchesNothing(regions[i].range, granule, g); }
      }
      assert HasRounded(regions[i].range, g, ranges);
      var k :| 0 <= k < |ranges| && IsRounded(regions[i].range, g, ranges[k]);
      RoundedTouches(regions[i].range, g, ranges[k], granule);
    }
  }
}
