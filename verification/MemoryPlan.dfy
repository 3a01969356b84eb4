/** The execution memory planner: a sweep over page boundaries that must agree with a page-by-page
    definition. */
module MemoryPlan {
  import opened Machine
  import opened GuestRanges
  import opened Sorting
  import opened Arithmetic

  datatype Source = MappingSource(index: u64) | StackSource
  datatype Region = Region(range: GuestRange, permissions: Permissions, sources: seq<Source>)
  datatype Plan = Plan(hostPageSize: u64, regions: seq<Region>)
  datatype Request = Request(
    mappings: seq<MappingIntent>, stack: GuestRange, entry: u64, stackPointer: u64, pageSize: u64)

  datatype PlanErrorCode =
    | InvalidHostPageSize | HostPageArithmeticOverflow | MixedWriteExecutePage
    | EntryPointUnmapped | EntryPointNotExecutable | StackPointerUnmapped
  datatype PlanError = PlanError(code: PlanErrorCode, address: Option<int>)

  // ----- the page-by-page definition -----

  /** Something that asks for memory: a mapping or the initial stack. */
  datatype Claim = Claim(range: GuestRange, permissions: Permissions, source: Source)

  function MappingClaims(mappings: seq<MappingIntent>): (r: seq<Claim>)
    ensures |r| == |mappings|
    ensures forall i :: 0 <= i < |r| ==>
              r[i] == Claim(mappings[i].range, mappings[i].permissions, MappingSource(mappings[i].sourceIndex))
  {
    seq(|mappings|, i requires 0 <= i < |mappings| =>
      Claim(mappings[i].range, mappings[i].permissions, MappingSource(mappings[i].sourceIndex)))
  }

  function StackClaim(stack: GuestRange): (c: Claim) {
    Claim(stack, Permissions(true, true, false), StackSource)
  }

  function Claims(req: Request): (r: seq<Claim>)
    ensures |r| == |req.mappings| + 1
  {
    MappingClaims(req.mappings) + [StackClaim(req.stack)]
  }

  /** Some byte of the range lies on the page. */
  ghost predicate Touches(r: GuestRange, page: int, ps: int)
    requires ps > 0
  {
    exists a :: Contains(r, a) && a / ps == page
  }

  ghost predicate Touched(claims: seq<Claim>, page: int, ps: int)
    requires ps > 0
  {
    exists c :: c in claims && Touches(c.range, page, ps)
  }

  /** The union of the permissions of everything touching the page. */
  ghost function PagePermissions(claims: seq<Claim>, page: int, ps: int): (r: Permissions)
    requires ps > 0
  {
    Permissions(exists c :: c in claims && Touches(c.range, page, ps) && c.permissions.read,
                exists c :: c in claims && Touches(c.range, page, ps) && c.permissions.write,
                exists c :: c in claims && Touches(c.range, page, ps) && c.permissions.execute)
  }

  ghost predicate IsPageSource(claims: seq<Claim>, page: int, ps: int, s: Source)
    requires ps > 0
  {
    exists c :: c in claims && Touches(c.range, page, ps) && c.source == s
  }

  ghost predicate MixedPage(claims: seq<Claim>, page: int, ps: int)
    requires ps > 0
  {
    PagePermissions(claims, page, ps).write && PagePermissions(claims, page, ps).execute
  }

  /** Sources are listed mappings first, by index, and the stack last. */
  function SourceKey(s: Source): (k: int) {
    match s
    case MappingSource(index) => index
    case StackSource => TWO64
  }

  ghost predicate RegionMeans(claims: seq<Claim>, ps: int, r: Region, page: int)
    requires ps > 0
  {
    && r.permissions == PagePermissions(claims, page, ps)
    && (forall s :: s in r.sources <==> IsPageSource(claims, page, ps, s))
  }

  ghost predicate RegionShape(r: Region, ps: int)
    requires ps > 0
  {
    && r.range.size > 0 && r.range.base % ps == 0 && r.range.size % ps == 0
    && r.sources != [] && StrictlySortedBy(r.sources, SourceKey)
    && !(r.permissions.write && r.permissions.execute)
  }

  ghost predicate InSomeRegion(regions: seq<Region>, a: int) {
    exists i :: 0 <= i < |regions| && Contains(regions[i].range, a)
  }

  ghost predicate Ordered(regions: seq<Region>) {
    forall i, j :: 0 <= i < j < |regions| ==>
      regions[i].range.base + regions[i].range.size <= regions[j].range.base
  }

  /** The plan says, for every page, exactly what the page-by-page definition says. */
  ghost predicate PlanMatches(req: Request, plan: Plan) {
    var ps: int := req.pageSize;
    && ps > 0 && plan.hostPageSize == ps
    && (forall i :: 0 <= i < |plan.regions| ==> RegionShape(plan.regions[i], ps))
    && Ordered(plan.regions)
    && (forall i, a: int :: 0 <= i < |plan.regions| && Contains(plan.regions[i].range, a) ==>
          RegionMeans(Claims(req), ps, plan.regions[i], a / ps))
    && (forall a: int :: 0 <= a < TWO64 && Touched(Claims(req), a / ps, ps) ==> InSomeRegion(plan.regions, a))
  }

  // ----- pages and bytes -----

  lemma TouchesIsInterval(r: GuestRange, page: int, ps: int)
    requires ps > 0 && r.size > 0
    ensures Touches(r, page, ps) <==> r.base / ps <= page <= (r.base + r.size - 1) / ps
  {
    var last := r.base + r.size - 1;
    if Touches(r, page, ps) {
      TouchedPageIsBetween(r, page, ps);
    }
    if r.base / ps <= page <= last / ps {
      var a := ByteOnPage(r.base, last, page, ps);
      assert Contains(r, a);
    }
  }

  lemma TouchedPageIsBetween(r: GuestRange, page: int, ps: int)
    requires ps > 0 && r.size > 0 && Touches(r, page, ps)
    ensures r.base / ps <= page <= (r.base + r.size - 1) / ps
  {
    var a :| Contains(r, a) && a / ps == page;
    DivMonotone(r.base, a, ps);
    DivMonotone(a, r.base + r.size - 1, ps);
  }

  // ----- spans: the planner's own view of the claims -----

  datatype Span = Span(first: int, last: int, permissions: Permissions, source: Source)

  predicate Covers(sp: Span, page: int) {
    sp.first <= page <= sp.last
  }

  /** `to_page_span`; the empty range it would refuse never reaches it. */
  function SpanOf(c: Claim, ps: u64): (sp: Span)
    requires c.range.size > 0 && ps > 0
  {
    Span(c.range.base / ps, (c.range.base + c.range.size - 1) / ps, c.permissions, c.source)
  }

  function SpansOf(claims: seq<Claim>, ps: u64): (r: seq<Span>)
    requires ps > 0
  {
    if claims == [] then []
    else
      var c := claims[|claims| - 1];
      var before := SpansOf(claims[..|claims| - 1], ps);
      if c.range.size == 0 then before else before + [SpanOf(c, ps)]
  }

  const NOTHING := Permissions(false, false, false)

  /** The permissions and sources the planner accumulates for one page. */
  function UnionAt(spans: seq<Span>, page: int): (r: Permissions) {
    if spans == [] then NOTHING
    else
      var sp := spans[|spans| - 1];
      var before := UnionAt(spans[..|spans| - 1], page);
      if Covers(sp, page) then Union(before, sp.permissions) else before
  }

  function SourcesAt(spans: seq<Span>, page: int): (r: seq<Source>) {
    if spans == [] then []
    else
      var sp := spans[|spans| - 1];
      var before := SourcesAt(spans[..|spans| - 1], page);
      if Covers(sp, page) then before + [sp.source] else before
  }

  /** One more claim adds its permissions and its source to the pages it touches. */
  lemma PageStep(claims: seq<Claim>, c: Claim, page: int, ps: int)
    requires ps > 0
    ensures PagePermissions(claims + [c], page, ps)
         == if Touches(c.range, page, ps) then Union(PagePermissions(claims, page, ps), c.permissions)
            else PagePermissions(claims, page, ps)
    ensures forall s :: IsPageSource(claims + [c], page, ps, s) <==>
                        IsPageSource(claims, page, ps, s) || (Touches(c.range, page, ps) && s == c.source)
    ensures Touched(claims + [c], page, ps) <==> Touched(claims, page, ps) || Touches(c.range, page, ps)
  {
    hide Touches;
    var all := claims + [c];
    assert all[|claims|] == c;
    assert forall x :: x in claims ==> x in all;
    assert forall x :: x in all ==> x in claims || x == c;
  }

  /** The accumulated view of a page is its definition. */
  lemma {:induction false} SpansMean(claims: seq<Claim>, page: int, ps: u64)
    requires ps > 0
    ensures var spans := SpansOf(claims, ps);
            && UnionAt(spans, page) == PagePermissions(claims, page, ps)
            && (forall s :: s in SourcesAt(spans, page) <==> IsPageSource(claims, page, ps, s))
            && (SourcesAt(spans, page) != [] <==> Touched(claims, page, ps))
  {
    hide PagePermissions, IsPageSource, Touched, Touches, SpansOf, SpanOf, Covers;
    if claims == [] {
      NothingTouched(page, ps);
      NoSpans(ps);
    } else {
      var before, c := claims[..|claims| - 1], claims[|claims| - 1];
      assert claims == before + [c];
      SpansMean(before, page, ps);
      PageStep(before, c, page, ps);
      SpanStep(claims, page, ps);
      if c.range.size != 0 {
        var spans := SpansOf(claims, ps);
        assert spans[..|spans| - 1] == SpansOf(before, ps);
      }
    }
  }

  lemma NoSpans(ps: u64)
    requires ps > 0
    ensures SpansOf([], ps) == []
  {
  }

  /** One more claim adds one span, which covers the pages that the claim touches. */
  lemma SpanStep(claims: seq<Claim>, page: int, ps: u64)
    requires ps > 0 && claims != []
    ensures var before, c := claims[..|claims| - 1], claims[|claims| - 1];
            && (c.range.size == 0 ==> SpansOf(claims, ps) == SpansOf(before, ps) && !Touches(c.range, page, ps))
            && (c.range.size != 0 ==>
                  && SpansOf(claims, ps) == SpansOf(before, ps) + [SpanOf(c, ps)]
                  && SpanOf(c, ps).permissions == c.permissions && SpanOf(c, ps).source == c.source
                  && (Covers(SpanOf(c, ps), page) <==> Touches(c.range, page, ps)))
  {
    hide Touches;
    var c := claims[|claims| - 1];
    if c.range.size == 0 {
      EmptyTouchesNothing(c.range, page, ps);
    } else {
      TouchesIsInterval(c.range, page, ps);
    }
  }

  lemma NothingTouched(page: int, ps: int)
    requires ps > 0
    ensures PagePermissions([], page, ps) == NOTHING && !Touched([], page, ps)
    ensures forall s :: !IsPageSource([], page, ps, s)
  {
  }

  lemma EmptyTouchesNothing(r: GuestRange, page: int, ps: int)
    requires ps > 0 && r.size == 0
    ensures !Touches(r, page, ps)
  {
  }

  ghost predicate SpansFit(spans: seq<Span>, maxPage: int) {
    forall k :: 0 <= k < |spans| ==> 0 <= spans[k].first <= spans[k].last <= maxPage
  }

  lemma {:induction false} SpansOfFit(claims: seq<Claim>, ps: u64)
    requires ps > 0
    ensures SpansFit(SpansOf(claims, ps), U64_MAX / ps)
  {
    if claims != [] {
      SpansOfFit(claims[..|claims| - 1], ps);
      var c := claims[|claims| - 1];
      if c.range.size > 0 {
        DivMonotone(0, c.range.base, ps);
        DivMonotone(c.range.base, c.range.base + c.range.size - 1, ps);
        DivMonotone(c.range.base + c.range.size - 1, U64_MAX, ps);
      }
    }
  }

  /** Pages covered by the same spans look the same. */
  lemma {:induction false} SameCoverSamePage(spans: seq<Span>, p: int, q: int)
    requires forall k :: 0 <= k < |spans| ==> (Covers(spans[k], p) <==> Covers(spans[k], q))
    ensures UnionAt(spans, p) == UnionAt(spans, q) && SourcesAt(spans, p) == SourcesAt(spans, q)
  {
    if spans != [] {
      SameCoverSamePage(spans[..|spans| - 1], p, q);
    }
  }

  lemma {:induction false} UncoveredPage(spans: seq<Span>, p: int)
    requires forall k :: 0 <= k < |spans| ==> !Covers(spans[k], p)
    ensures UnionAt(spans, p) == NOTHING && SourcesAt(spans, p) == []
  {
    if spans != [] {
      UncoveredPage(spans[..|spans| - 1], p);
    }
  }

  // ----- boundaries -----

  ghost predicate IsBoundary(spans: seq<Span>, maxPage: int, b: int) {
    exists k :: 0 <= k < |spans|
                && (b == spans[k].first || (b == spans[k].last + 1 && spans[k].last < maxPage))
  }

  ghost predicate Boundaries(spans: seq<Span>, maxPage: int, bs: seq<int>) {
    && (forall i, j :: 0 <= i < j < |bs| ==> bs[i] < bs[j])
    && (forall b :: b in bs <==> IsBoundary(spans, maxPage, b))
  }

  /** The last page before the next boundary. */
  function LastOf(bs: seq<int>, i: nat, maxPage: int): (last: int)
    requires i < |bs|
  {
    if i + 1 < |bs| then bs[i + 1] - 1 else maxPage
  }

  lemma NoBoundaryInside(spans: seq<Span>, maxPage: int, bs: seq<int>, i: nat, b: int)
    requires Boundaries(spans, maxPage, bs) && i < |bs| && bs[i] < b <= LastOf(bs, i, maxPage)
    ensures !IsBoundary(spans, maxPage, b)
  {
    hide IsBoundary;
    if b in bs {
      var j :| 0 <= j < |bs| && bs[j] == b;
    }
  }

  /** Between two boundaries nothing starts or ends. */
  lemma CoverageConstant(spans: seq<Span>, maxPage: int, bs: seq<int>, i: nat, p: int)
    requires SpansFit(spans, maxPage) && Boundaries(spans, maxPage, bs)
    requires i < |bs| && bs[i] <= p <= LastOf(bs, i, maxPage) <= maxPage
    ensures UnionAt(spans, p) == UnionAt(spans, bs[i]) && SourcesAt(spans, p) == SourcesAt(spans, bs[i])
  {
    forall k | 0 <= k < |spans|
      ensures Covers(spans[k], bs[i]) <==> Covers(spans[k], p)
    {
      var sp := spans[k];
      assert IsBoundary(spans, maxPage, sp.first);
      if bs[i] < sp.first <= p {
        NoBoundaryInside(spans, maxPage, bs, i, sp.first);
      }
      if bs[i] <= sp.last < p {
        assert IsBoundary(spans, maxPage, sp.last + 1);
        NoBoundaryInside(spans, maxPage, bs, i, sp.last + 1);
      }
    }
    SameCoverSamePage(spans, bs[i], p);
  }

  lemma BelowFirstBoundary(spans: seq<Span>, maxPage: int, bs: seq<int>, p: int)
    requires SpansFit(spans, maxPage) && Boundaries(spans, maxPage, bs)
    requires bs == [] || p < bs[0]
    ensures UnionAt(spans, p) == NOTHING && SourcesAt(spans, p) == []
  {
    forall k | 0 <= k < |spans|
      ensures !Covers(spans[k], p)
    {
      assert IsBoundary(spans, maxPage, spans[k].first);
      assert spans[k].first in bs;
    }
    UncoveredPage(spans, p);
  }

  lemma BoundariesFit(spans: seq<Span>, maxPage: int, bs: seq<int>)
    requires SpansFit(spans, maxPage) && Boundaries(spans, maxPage, bs)
    ensures forall i :: 0 <= i < |bs| ==> 0 <= bs[i] <= LastOf(bs, i, maxPage) <= maxPage
  {
    forall i | 0 <= i < |bs|
      ensures 0 <= bs[i] <= maxPage
    {
      assert bs[i] in bs;
    }
  }

  // ----- the sweep -----

  ghost predicate SameSources(sources: seq<Source>, at: seq<Source>) {
    forall s :: s in sources <==> s in at
  }

  ghost predicate AgreesAt(spans: seq<Span>, ps: int, r: Region, a: int)
    requires ps > 0
  {
    Contains(r.range, a) ==>
      r.permissions == UnionAt(spans, a / ps) && SameSources(r.sources, SourcesAt(spans, a / ps))
  }

  predicate Mixed(p: Permissions) {
    p.write && p.execute
  }

  /** The regions are complete and right for all pages below `upTo`. */
  ghost predicate Swept(spans: seq<Span>, ps: int, regions: seq<Region>, upTo: int)
    requires ps > 0
  {
    && Ordered(regions)
    && (forall i :: 0 <= i < |regions| ==>
          RegionShape(regions[i], ps) && regions[i].range.base + regions[i].range.size <= upTo * ps)
    && (forall i, a :: 0 <= i < |regions| ==> AgreesAt(spans, ps, regions[i], a))
    && (forall a :: 0 <= a < upTo * ps && SourcesAt(spans, a / ps) != [] ==> InSomeRegion(regions, a))
    && (forall page :: 0 <= page < upTo ==> !Mixed(UnionAt(spans, page)))
  }

  lemma SweptStart(spans: seq<Span>, ps: int, maxPage: int, bs: seq<int>, upTo: int)
    requires ps > 0 && SpansFit(spans, maxPage) && Boundaries(spans, maxPage, bs)
    requires bs != [] ==> upTo == bs[0]
    ensures Swept(spans, ps, [], upTo)
  {
    forall p | p < upTo
      ensures UnionAt(spans, p) == NOTHING && SourcesAt(spans, p) == []
    {
      BelowFirstBoundary(spans, maxPage, bs, p);
    }
    forall a | 0 <= a < upTo * ps
      ensures SourcesAt(spans, a / ps) == []
    {
      PageOrder(a, upTo, ps);
    }
  }

  /** The pages from `first` to `last` all look like `first`. */
  ghost predicate Uniform(spans: seq<Span>, first: int, last: int) {
    forall p :: first <= p <= last ==>
      UnionAt(spans, p) == UnionAt(spans, first) && SourcesAt(spans, p) == SourcesAt(spans, first)
  }

  lemma SweptSkip(spans: seq<Span>, ps: int, regions: seq<Region>, first: int, last: int)
    requires ps > 0 && 0 <= first <= last && Swept(spans, ps, regions, first) && Uniform(spans, first, last)
    requires SourcesAt(spans, first) == [] && !Mixed(UnionAt(spans, first))
    ensures Swept(spans, ps, regions, last + 1)
  {
    hide RegionShape, AgreesAt, UnionAt, SourcesAt, Ordered, Contains;
    MulOrder(ps, first, last + 1);
    assert first * ps <= (last + 1) * ps;
    forall a | 0 <= a < (last + 1) * ps && SourcesAt(spans, a / ps) != []
      ensures InSomeRegion(regions, a)
    {
      PageOrder(a, last + 1, ps);
      PageOrder(a, first, ps);
      assert a / ps < first;
    }
  }

  lemma PagesOfRange(r: GuestRange, ps: int, first: int, last: int, a: int)
    requires ps > 0 && first <= last && r.base == first * ps && r.size == (last - first + 1) * ps
    ensures Contains(r, a) <==> first <= a / ps <= last
    ensures r.base + r.size == (last + 1) * ps
  {
    assert first * ps + (last - first + 1) * ps == (last + 1) * ps;
    PageOrder(a, first, ps);
    PageOrder(a, last + 1, ps);
  }

  lemma SweptPush(spans: seq<Span>, ps: int, regions: seq<Region>, first: int, last: int, r: Region)
    requires ps > 0 && 0 <= first <= last && Swept(spans, ps, regions, first) && Uniform(spans, first, last)
    requires r.range.base == first * ps && r.range.size == (last - first + 1) * ps
    requires RegionShape(r, ps) && r.permissions == UnionAt(spans, first)
    requires SameSources(r.sources, SourcesAt(spans, first))
    ensures Swept(spans, ps, regions + [r], last + 1)
  {
    hide RegionShape, UnionAt, SourcesAt, SameSources;
    var regions' := regions + [r];
    MulOrder(ps, first, last + 1);
    assert first * ps <= (last + 1) * ps;
    PagesOfRange(r.range, ps, first, last, 0);
    forall a
      ensures AgreesAt(spans, ps, r, a)
    {
      PagesOfRange(r.range, ps, first, last, a);
    }
    forall a | 0 <= a < (last + 1) * ps && SourcesAt(spans, a / ps) != []
      ensures InSomeRegion(regions', a)
    {
      PagesOfRange(r.range, ps, first, last, a);
      PageOrder(a, last + 1, ps);
      PageOrder(a, first, ps);
      if a / ps < first {
        assert InSomeRegion(regions, a);
        var i :| 0 <= i < |regions| && Contains(regions[i].range, a);
        assert regions'[i] == regions[i];
      } else {
        assert regions'[|regions|] == r;
      }
    }
    assert !Mixed(UnionAt(spans, first)) by { ShapeNotMixed(r, ps); }
  }

  lemma ShapeNotMixed(r: Region, ps: int)
    requires ps > 0 && RegionShape(r, ps)
    ensures !Mixed(r.permissions) && r.range.size > 0
  {
  }

  // ----- the planner -----

  method BuildSpans(req: Request) returns (spans: seq<Span>)
    requires req.pageSize > 0
    ensures spans == SpansOf(Claims(req), req.pageSize)
  {
    var ps := req.pageSize;
    ghost var claims := MappingClaims(req.mappings);
    spans := [];
    var i := 0;
    while i < |req.mappings|
      invariant 0 <= i <= |req.mappings|
      invariant spans == SpansOf(claims[..i], ps)
    {
      var m := req.mappings[i];
      if m.range.size != 0 {
        spans := spans + [SpanOf(Claim(m.range, m.permissions, MappingSource(m.sourceIndex)), ps)];
      }
      assert claims[..i + 1][..i] == claims[..i];
      i := i + 1;
    }
    assert claims[..i] == claims;
    if req.stack.size != 0 {
      spans := spans + [SpanOf(StackClaim(req.stack), ps)];
    }
    assert Claims(req)[..|claims|] == claims;
  }

  method CollectBoundaries(spans: seq<Span>, maxPage: int) returns (bs: seq<int>)
    ensures Boundaries(spans, maxPage, bs)
  {
    var raw: seq<int> := [];
    var i := 0;
    while i < |spans|
      invariant 0 <= i <= |spans|
      invariant forall b :: b in raw <==> IsBoundary(spans[..i], maxPage, b)
    {
      ghost var before := raw;
      raw := raw + [spans[i].first];
      if spans[i].last < maxPage {
        raw := raw + [spans[i].last + 1];
      }
      forall b
        ensures b in raw <==> IsBoundary(spans[..i + 1], maxPage, b)
      {
        BoundaryStep(spans, maxPage, i, b);
      }
      i := i + 1;
    }
    assert spans[..i] == spans;
    var sorted := Sort(raw, (b: int) => b);
    bs := Unique(sorted, (b: int) => b);
  }

  lemma BoundaryStep(spans: seq<Span>, maxPage: int, i: nat, b: int)
    requires i < |spans|
    ensures IsBoundary(spans[..i + 1], maxPage, b) <==>
            || IsBoundary(spans[..i], maxPage, b)
            || b == spans[i].first
            || (b == spans[i].last + 1 && spans[i].last < maxPage)
  {
    var x, y := spans[..i], spans[..i + 1];
    assert y[i] == spans[i];
    assert forall k :: 0 <= k < i ==> x[k] == y[k];
  }

  /** The inner loop: everything that covers one page. */
  method SummarisePage(spans: seq<Span>, page: int) returns (permissions: Permissions, sources: seq<Source>)
    ensures permissions == UnionAt(spans, page) && sources == SourcesAt(spans, page)
  {
    permissions, sources := NOTHING, [];
    var i := 0;
    while i < |spans|
      invariant 0 <= i <= |spans|
      invariant permissions == UnionAt(spans[..i], page) && sources == SourcesAt(spans[..i], page)
    {
      assert spans[..i + 1][..i] == spans[..i];
      if Covers(spans[i], page) {
        permissions := Union(permissions, spans[i].permissions);
        sources := sources + [spans[i].source];
      }
      i := i + 1;
    }
    assert spans[..i] == spans;
  }

  method SortSources(sources: seq<Source>) returns (r: seq<Source>)
    ensures StrictlySortedBy(r, SourceKey) && SameSources(r, sources)
    ensures sources != [] ==> r != []
  {
    var sorted := Sort(sources, SourceKey);
    r := Unique(sorted, SourceKey);
    if sources != [] {
      assert sources[0] in r;
    }
  }

  /** A region of whole pages; refused when it would be the entire address space, whose size does not
      fit in 64 bits. */
  method MakeRegion(ps: u64, maxPage: int, first: int, last: int, permissions: Permissions, sources: seq<Source>)
    returns (r: Result<Region, PlanError>)
    requires IsPowerOfTwo(ps) && maxPage == U64_MAX / ps && 0 <= first <= last <= maxPage
    requires !Mixed(permissions) && sources != []
    ensures r.Err? <==> first == 0 && last == maxPage
    ensures r.Err? ==> r.error == PlanError(HostPageArithmeticOverflow, Some(0))
    ensures r.Ok? ==>
              && r.value.range.base == first * ps && r.value.range.size == (last - first + 1) * ps
              && RegionShape(r.value, ps) && r.value.permissions == permissions
              && SameSources(r.value.sources, sources)
  {
    var pageCount := last - first + 1;
    if pageCount > U64_MAX / ps {
      assert first * ps == 0;
      return Err(PlanError(HostPageArithmeticOverflow, Some(first * ps)));
    }
    RegionFits(ps, maxPage, first, last);
    var range := RawRange(first * ps, pageCount * ps);
    var ordered := SortSources(sources);
    return Ok(Region(range, permissions, ordered));
  }

  lemma RegionFits(ps: u64, maxPage: int, first: int, last: int)
    requires IsPowerOfTwo(ps) && maxPage == U64_MAX / ps && 0 <= first <= last <= maxPage
    requires last - first + 1 <= maxPage
    ensures 0 <= first * ps < TWO64 && 0 < (last - first + 1) * ps < TWO64
    ensures first * ps + (last - first + 1) * ps <= TWO64
    ensures (first * ps) % ps == 0 && ((last - first + 1) * ps) % ps == 0
  {
    hide IsPowerOfTwo;
    var count := last - first + 1;
    WholePages(ps);
    MultipleDivides(ps, first);
    MultipleDivides(ps, count);
    SumOfMultiples(ps, first, count);
    MultiplesOrdered(ps, 0, first);
    MultiplesOrdered(ps, last + 1, maxPage + 1);
    MultiplesOrdered(ps, 1, count);
    MultiplesOrdered(ps, count + 1, maxPage + 1);
    SumOfMultiples(ps, count, 1);
    SumOfMultiples(ps, first, 1);
    MultiplesOrdered(ps, first + 1, maxPage + 1);
  }

  /** Pages tile the address space exactly. */
  lemma WholePages(ps: u64)
    requires IsPowerOfTwo(ps)
    ensures ps > 0 && (U64_MAX / ps + 1) * ps == TWO64
  {
    PageSizeDivides(ps);
    var q := TWO64 / ps;
    assert TWO64 == ps * q;
    assert U64_MAX == ps * (q - 1) + (ps - 1);
    DivMod(U64_MAX, ps, q - 1, ps - 1);
  }

  datatype SweepResult = Regions(regions: seq<Region>) | MixedAt(page: int) | TooLarge

  /** The region loop. */
  method Sweep(spans: seq<Span>, ps: u64, bs: seq<int>) returns (r: SweepResult)
    requires IsPowerOfTwo(ps) && SpansFit(spans, U64_MAX / ps) && Boundaries(spans, U64_MAX / ps, bs)
    ensures r.Regions? ==> Swept(spans, ps, r.regions, U64_MAX / ps + 1)
    ensures r.Regions? ==> !(SourcesAt(spans, 0) != [] && bs == [0])
    ensures r.MixedAt? ==> r.page >= 0 && Mixed(UnionAt(spans, r.page))
                           && forall p :: 0 <= p < r.page ==> !Mixed(UnionAt(spans, p))
    ensures r.TooLarge? ==> SourcesAt(spans, 0) != [] && bs == [0] && Uniform(spans, 0, U64_MAX / ps)
                            && !Mixed(UnionAt(spans, 0))
  {
    hide Boundaries, UnionAt, SourcesAt, RegionShape, Swept;
    var maxPage := U64_MAX / ps;
    BoundariesFit(spans, maxPage, bs);
    SweptStart(spans, ps, maxPage, bs, if bs == [] then maxPage + 1 else bs[0]);
    var regions: seq<Region> := [];
    var i := 0;
    while i < |bs|
      invariant 0 <= i <= |bs|
      invariant Swept(spans, ps, regions, if i < |bs| then bs[i] else maxPage + 1)
      invariant i > 0 ==> !(SourcesAt(spans, 0) != [] && bs == [0])
    {
      var first := bs[i];
      var last := if i + 1 < |bs| then bs[i + 1] - 1 else maxPage;
      forall p | first <= p <= last
        ensures UnionAt(spans, p) == UnionAt(spans, first) && SourcesAt(spans, p) == SourcesAt(spans, first)
      {
        CoverageConstant(spans, maxPage, bs, i, p);
      }
      var permissions, sources := SummarisePage(spans, first);
      if sources == [] {
        NoSourcesNoPermissions(spans, first);
        SweptSkip(spans, ps, regions, first, last);
      } else {
        if permissions.write && permissions.execute {
          NoMixedBelow(spans, ps, regions, first);
          return MixedAt(first);
        }
        var made := MakeRegion(ps, maxPage, first, last, permissions, sources);
        if made.Err? {
          OneBoundary(spans, maxPage, bs, i);
          return TooLarge;
        }
        SweptPush(spans, ps, regions, first, last, made.value);
        regions := regions + [made.value];
      }
      i := i + 1;
    }
    return Regions(regions);
  }

  lemma {:induction false} NoSourcesNoPermissions(spans: seq<Span>, page: int)
    requires SourcesAt(spans, page) == []
    ensures UnionAt(spans, page) == NOTHING
  {
    if spans != [] {
      NoSourcesNoPermissions(spans[..|spans| - 1], page);
    }
  }

  lemma NoMixedBelow(spans: seq<Span>, ps: int, regions: seq<Region>, upTo: int)
    requires ps > 0 && Swept(spans, ps, regions, upTo)
    ensures forall p :: 0 <= p < upTo ==> !Mixed(UnionAt(spans, p))
  {
  }

  lemma OneBoundary(spans: seq<Span>, maxPage: int, bs: seq<int>, i: nat)
    requires SpansFit(spans, maxPage) && Boundaries(spans, maxPage, bs)
    requires i < |bs| && bs[i] == 0 && LastOf(bs, i, maxPage) == maxPage
    ensures bs == [0]
  {
    hide IsBoundary, SpansFit;
    BoundariesFit(spans, maxPage, bs);
    assert 0 <= bs[0];
    assert i == 0;
    assert |bs| == 1;
  }

  // ----- the outcome of planning -----

  ghost predicate AnyMixedPage(req: Request)
    requires req.pageSize > 0
  {
    exists page :: page >= 0 && MixedPage(Claims(req), page, req.pageSize)
  }

  /** Everything that asks for memory asks for every page, so there would be a single region of 2^64
      bytes. */
  ghost predicate WholeSpace(req: Request)
    requires req.pageSize > 0
  {
    && (exists c :: c in Claims(req) && c.range.size > 0)
    && (forall c :: c in Claims(req) && c.range.size > 0 ==>
          Touches(c.range, 0, req.pageSize) && Touches(c.range, U64_MAX / req.pageSize, req.pageSize))
  }

  ghost predicate EntryMapped(req: Request) {
    exists m :: m in req.mappings && Contains(m.range, req.entry)
  }

  ghost predicate EntryExecutable(req: Request) {
    exists m :: m in req.mappings && Contains(m.range, req.entry) && m.permissions.execute
  }

  ghost predicate Plannable(req: Request) {
    && IsPowerOfTwo(req.pageSize) && !AnyMixedPage(req) && !WholeSpace(req)
    && EntryMapped(req) && EntryExecutable(req) && Contains(req.stack, req.stackPointer)
  }

  /** The first thing wrong, in the order the planner looks; a mixed page is reported by the lowest
      one. */
  ghost predicate Explains(req: Request, e: PlanError) {
    if !IsPowerOfTwo(req.pageSize) then e == PlanError(InvalidHostPageSize, None)
    else if AnyMixedPage(req) then
      exists page :: page >= 0 && MixedPage(Claims(req), page, req.pageSize)
                     && (forall p :: 0 <= p < page ==> !MixedPage(Claims(req), p, req.pageSize))
                     && e == PlanError(MixedWriteExecutePage, Some(page * req.pageSize))
    else if WholeSpace(req) then e == PlanError(HostPageArithmeticOverflow, Some(0))
    else if !EntryMapped(req) then e == PlanError(EntryPointUnmapped, Some(req.entry))
    else if !EntryExecutable(req) then e == PlanError(EntryPointNotExecutable, Some(req.entry))
    else e == PlanError(StackPointerUnmapped, Some(req.stackPointer))
  }

  lemma SweptRegionMeans(claims: seq<Claim>, ps: u64, r: Region, a: int)
    requires ps > 0 && Contains(r.range, a) && AgreesAt(SpansOf(claims, ps), ps, r, a)
    ensures RegionMeans(claims, ps, r, a / ps)
  {
    hide UnionAt, SourcesAt, SpansOf, PagePermissions, IsPageSource, Touched;
    SpansMean(claims, a / ps, ps);
  }

  lemma SweptNotMixed(req: Request, regions: seq<Region>, page: int)
    requires IsPowerOfTwo(req.pageSize) && page >= 0
    requires Swept(SpansOf(Claims(req), req.pageSize), req.pageSize, regions, U64_MAX / req.pageSize + 1)
    ensures !MixedPage(Claims(req), page, req.pageSize)
  {
    hide Swept, UnionAt, SpansOf, MixedPage, Claims;
    var ps, spans := req.pageSize, SpansOf(Claims(req), req.pageSize);
    MixedMeans(req, page);
    NoMixedBelow(spans, ps, regions, U64_MAX / ps + 1);
    if page > U64_MAX / ps {
      NothingBeyond(Claims(req), ps, page);
    }
  }

  lemma SweptParts(spans: seq<Span>, ps: int, regions: seq<Region>, upTo: int)
    requires ps > 0 && Swept(spans, ps, regions, upTo)
    ensures Ordered(regions)
    ensures forall i :: 0 <= i < |regions| ==> RegionShape(regions[i], ps)
    ensures forall i, a :: 0 <= i < |regions| ==> AgreesAt(spans, ps, regions[i], a)
  {
  }

  lemma SweptCovers(spans: seq<Span>, ps: int, regions: seq<Region>, upTo: int, a: int)
    requires ps > 0 && Swept(spans, ps, regions, upTo) && upTo * ps == TWO64
    requires 0 <= a < TWO64 && SourcesAt(spans, a / ps) != []
    ensures InSomeRegion(regions, a)
  {
  }

  lemma SweptMatches(req: Request, regions: seq<Region>)
    requires IsPowerOfTwo(req.pageSize)
    requires Swept(SpansOf(Claims(req), req.pageSize), req.pageSize, regions, U64_MAX / req.pageSize + 1)
    ensures PlanMatches(req, Plan(req.pageSize, regions))
    ensures !AnyMixedPage(req)
  {
    hide RegionShape, UnionAt, SourcesAt, SpansOf, PagePermissions, IsPageSource, Touched, Claims, RegionMeans,
         AgreesAt, MixedPage, IsPowerOfTwo, Swept, Contains;
    var ps, claims := req.pageSize, Claims(req);
    PositivePower(ps);
    var spans := SpansOf(claims, ps);
    WholePages(ps);
    SweptParts(spans, ps, regions, U64_MAX / ps + 1);
    forall i, a: int | 0 <= i < |regions| && Contains(regions[i].range, a)
      ensures RegionMeans(claims, ps, regions[i], a / ps)
    {
      assert AgreesAt(spans, ps, regions[i], a);
      SweptRegionMeans(claims, ps, regions[i], a);
    }
    forall a: int | 0 <= a < TWO64 && Touched(claims, a / ps, ps)
      ensures InSomeRegion(regions, a)
    {
      SpansMean(claims, a / ps, ps);
      SweptCovers(spans, ps, regions, U64_MAX / ps + 1, a);
    }
    forall page | page >= 0
      ensures !MixedPage(claims, page, ps)
    {
      SweptNotMixed(req, regions, page);
    }
  }

  lemma NothingBeyond(claims: seq<Claim>, ps: u64, page: int)
    requires ps > 0 && page > U64_MAX / ps
    ensures UnionAt(SpansOf(claims, ps), page) == NOTHING
  {
    SpansOfFit(claims, ps);
    UncoveredPage(SpansOf(claims, ps), page);
  }

  lemma {:induction false} SpanMembers(claims: seq<Claim>, ps: u64)
    requires ps > 0
    ensures forall sp :: sp in SpansOf(claims, ps) <==>
                         exists c :: c in claims && c.range.size > 0 && sp == SpanOf(c, ps)
  {
    hide SpanOf;
    if claims != [] {
      var before, last := claims[..|claims| - 1], claims[|claims| - 1];
      SpanMembers(before, ps);
      assert forall c :: c in claims <==> c in before || c == last;
    }
  }

  lemma {:induction false} NoSpansNoSources(spans: seq<Span>, page: int)
    ensures (exists k :: 0 <= k < |spans| && Covers(spans[k], page)) <==> SourcesAt(spans, page) != []
  {
    if spans != [] {
      var before := spans[..|spans| - 1];
      NoSpansNoSources(before, page);
      assert forall k :: 0 <= k < |before| ==> before[k] == spans[k];
    }
  }

  ghost predicate FullSpan(sp: Span, maxPage: int) {
    sp.first == 0 && sp.last == maxPage
  }

  /** A claim asks for the first and the last page exactly when its span is everything. */
  lemma FullSpanMeans(c: Claim, ps: u64)
    requires ps > 0 && c.range.size > 0
    ensures FullSpan(SpanOf(c, ps), U64_MAX / ps)
       <==> Touches(c.range, 0, ps) && Touches(c.range, U64_MAX / ps, ps)
  {
    hide Touches;
    TouchesIsInterval(c.range, 0, ps);
    TouchesIsInterval(c.range, U64_MAX / ps, ps);
    SpansOfFit([c], ps);
    assert SpansOf([c], ps) == SpansOf([], ps) + [SpanOf(c, ps)];
    assert SpansOf([c], ps)[0] == SpanOf(c, ps);
  }

  lemma {:induction false} SpreadOut(bs: seq<int>, k: nat)
    requires k < |bs| && forall i, j :: 0 <= i < j < |bs| ==> bs[i] < bs[j]
    ensures bs[k] >= bs[0] + k
  {
    if k > 0 {
      SpreadOut(bs, k - 1);
      assert bs[k - 1] < bs[k];
    }
  }

  /** There is one boundary, page zero, exactly when there are spans and all are full. */
  lemma OneBoundaryMeans(spans: seq<Span>, maxPage: int, bs: seq<int>)
    requires SpansFit(spans, maxPage) && Boundaries(spans, maxPage, bs)
    ensures bs == [0] <==> spans != [] && forall k :: 0 <= k < |spans| ==> FullSpan(spans[k], maxPage)
  {
    if bs == [0] {
      assert 0 in bs;
      forall k | 0 <= k < |spans|
        ensures FullSpan(spans[k], maxPage)
      {
        assert IsBoundary(spans, maxPage, spans[k].first);
        assert spans[k].first in bs;
        var last := spans[k].last;
        assert last < maxPage ==> IsBoundary(spans, maxPage, last + 1);
        assert last < maxPage ==> last + 1 in bs;
      }
    }
    if spans != [] && forall k :: 0 <= k < |spans| ==> FullSpan(spans[k], maxPage) {
      assert IsBoundary(spans, maxPage, spans[0].first);
      assert 0 in bs;
      assert forall b :: b in bs ==> b == 0;
      assert forall j :: 0 <= j < |bs| ==> bs[j] in bs;
      SpreadOut(bs, |bs| - 1);
      assert |bs| == 1 && bs == [bs[0]];
    }
  }

  /** The single-boundary case is exactly the whole-space case. */
  lemma WholeSpaceIsOneBoundary(req: Request, bs: seq<int>)
    requires IsPowerOfTwo(req.pageSize)
    requires Boundaries(SpansOf(Claims(req), req.pageSize), U64_MAX / req.pageSize, bs)
    ensures WholeSpace(req) <==> SourcesAt(SpansOf(Claims(req), req.pageSize), 0) != [] && bs == [0]
  {
    hide SourcesAt, SpansOf, Claims, Touches, Boundaries, SpanOf, FullSpan, IsPowerOfTwo;
    PositivePower(req.pageSize);
    var ps, claims := req.pageSize, Claims(req);
    var spans, maxPage := SpansOf(claims, ps), U64_MAX / ps;
    SpansOfFit(claims, ps);
    SpanMembers(claims, ps);
    OneBoundaryMeans(spans, maxPage, bs);
    forall c | c in claims && c.range.size > 0
      ensures SpanOf(c, ps) in spans
      ensures FullSpan(SpanOf(c, ps), maxPage) <==> Touches(c.range, 0, ps) && Touches(c.range, maxPage, ps)
    {
      FullSpanMeans(c, ps);
    }
    assert forall k :: 0 <= k < |spans| ==> spans[k] in spans;
    if bs == [0] {
      assert FullSpan(spans[0], maxPage);
      FullCoversZero(spans, maxPage);
    }
  }

  lemma PositivePower(v: nat)
    requires IsPowerOfTwo(v)
    ensures v > 0
  {
  }

  lemma FullCoversZero(spans: seq<Span>, maxPage: int)
    requires |spans| > 0 && FullSpan(spans[0], maxPage) && maxPage >= 0
    ensures SourcesAt(spans, 0) != []
  {
    NoSpansNoSources(spans, 0);
    assert Covers(spans[0], 0);
  }

  lemma MixedMeans(req: Request, page: int)
    requires req.pageSize > 0
    ensures MixedPage(Claims(req), page, req.pageSize)
       <==> Mixed(UnionAt(SpansOf(Claims(req), req.pageSize), page))
  {
    hide PagePermissions, UnionAt, Claims;
    SpansMean(Claims(req), page, req.pageSize);
  }

  method FindEntry(req: Request) returns (mapped: bool, executable: bool)
    ensures mapped <==> EntryMapped(req)
    ensures executable <==> EntryExecutable(req)
  {
    mapped, executable := false, false;
    var i := 0;
    while i < |req.mappings|
      invariant 0 <= i <= |req.mappings|
      invariant mapped <==> exists k :: 0 <= k < i && Contains(req.mappings[k].range, req.entry)
      invariant executable <==> exists k :: 0 <= k < i && Contains(req.mappings[k].range, req.entry)
                                            && req.mappings[k].permissions.execute
    {
      if Contains(req.mappings[i].range, req.entry) {
        mapped := true;
        if req.mappings[i].permissions.execute {
          executable := true;
        }
      }
      i := i + 1;
    }
  }

  // ----- the same, stated over the mappings and the stack -----

  /** The stack can be read and written and never executed; a mapping gives what it asks for. */
  ghost predicate ReadablePage(req: Request, page: int)
    requires req.pageSize > 0
  {
    Touches(req.stack, page, req.pageSize)
    || exists m :: m in req.mappings && Touches(m.range, page, req.pageSize) && m.permissions.read
  }

  ghost predicate WritablePage(req: Request, page: int)
    requires req.pageSize > 0
  {
    Touches(req.stack, page, req.pageSize)
    || exists m :: m in req.mappings && Touches(m.range, page, req.pageSize) && m.permissions.write
  }

  ghost predicate ExecutablePage(req: Request, page: int)
    requires req.pageSize > 0
  {
    exists m :: m in req.mappings && Touches(m.range, page, req.pageSize) && m.permissions.execute
  }

  ghost predicate UsedPage(req: Request, page: int)
    requires req.pageSize > 0
  {
    Touches(req.stack, page, req.pageSize)
    || exists m :: m in req.mappings && Touches(m.range, page, req.pageSize)
  }

  ghost predicate SourceOfPage(req: Request, page: int, s: Source)
    requires req.pageSize > 0
  {
    if s.StackSource? then Touches(req.stack, page, req.pageSize)
    else exists m :: m in req.mappings && Touches(m.range, page, req.pageSize) && m.sourceIndex == s.index
  }

  /** Mapping sources come by increasing index, the stack last. */
  ghost predicate SourcesInOrder(sources: seq<Source>) {
    forall i, j :: 0 <= i < j < |sources| ==>
      sources[i].MappingSource? && (sources[j].MappingSource? ==> sources[i].index < sources[j].index)
  }

  /** The page definition of a plan: a region byte has exactly the permissions and sources of its page, and
      every used page lies in a region. */
  ghost predicate PlanDescribes(req: Request, plan: Plan)
    requires req.pageSize > 0
  {
    && plan.hostPageSize == req.pageSize && Ordered(plan.regions)
    && (forall i :: 0 <= i < |plan.regions| ==>
          && plan.regions[i].range.size > 0 && plan.regions[i].range.base % req.pageSize == 0
          && plan.regions[i].range.size % req.pageSize == 0 && SourcesInOrder(plan.regions[i].sources))
    && (forall i, a: int :: 0 <= i < |plan.regions| && Contains(plan.regions[i].range, a) ==>
          RegionDescribes(req, plan.regions[i], a / req.pageSize))
    && (forall a: int :: 0 <= a < TWO64 ==>
          (UsedPage(req, a / req.pageSize) <==> InSomeRegion(plan.regions, a)))
  }

  ghost predicate RegionDescribes(req: Request, r: Region, page: int)
    requires req.pageSize > 0
  {
    && UsedPage(req, page)
    && (r.permissions.read <==> ReadablePage(req, page)) && (r.permissions.write <==> WritablePage(req, page))
    && (r.permissions.execute <==> ExecutablePage(req, page))
    && !(r.permissions.write && r.permissions.execute)
    && (forall s :: s in r.sources <==> SourceOfPage(req, page, s))
  }

  ghost predicate MixedPageOf(req: Request, page: int)
    requires req.pageSize > 0
  {
    WritablePage(req, page) && ExecutablePage(req, page)
  }

  /** Every mapping and the stack that is not empty reaches both ends of the address space. */
  ghost predicate EverythingEverywhere(req: Request)
    requires req.pageSize > 0
  {
    var top := U64_MAX / req.pageSize;
    && (req.stack.size > 0 || exists m :: m in req.mappings && m.range.size > 0)
    && (req.stack.size > 0 ==> Touches(req.stack, 0, req.pageSize) && Touches(req.stack, top, req.pageSize))
    && (forall m :: m in req.mappings && m.range.size > 0 ==>
          Touches(m.range, 0, req.pageSize) && Touches(m.range, top, req.pageSize))
  }

  /** The first thing wrong with a request, without reference to claims. */
  ghost predicate RefusalDescribes(req: Request, e: PlanError) {
    if !IsPowerOfTwo(req.pageSize) then e == PlanError(InvalidHostPageSize, None)
    else if exists page :: page >= 0 && MixedPageOf(req, page) then
      exists page :: page >= 0 && MixedPageOf(req, page)
                     && (forall p :: 0 <= p < page ==> !MixedPageOf(req, p))
                     && e == PlanError(MixedWriteExecutePage, Some(page * req.pageSize))
    else if EverythingEverywhere(req) then e == PlanError(HostPageArithmeticOverflow, Some(0))
    else if !EntryMapped(req) then e == PlanError(EntryPointUnmapped, Some(req.entry))
    else if !EntryExecutable(req) then e == PlanError(EntryPointNotExecutable, Some(req.entry))
    else !Contains(req.stack, req.stackPointer) && e == PlanError(StackPointerUnmapped, Some(req.stackPointer))
  }

  lemma ClaimMembers(req: Request, c: Claim)
    ensures c in Claims(req) <==>
            || c == Claim(req.stack, Permissions(true, true, false), StackSource)
            || exists m :: m in req.mappings && c == Claim(m.range, m.permissions, MappingSource(m.sourceIndex))
  {
    var mapped := MappingClaims(req.mappings);
    if c in mapped {
      var i :| 0 <= i < |mapped| && mapped[i] == c;
      assert req.mappings[i] in req.mappings;
    }
    if m :| m in req.mappings && c == Claim(m.range, m.permissions, MappingSource(m.sourceIndex)) {
      var i :| 0 <= i < |req.mappings| && req.mappings[i] == m;
      assert mapped[i] == c;
    }
  }

  /** The claims say about a page what the mappings and the stack say. */
  lemma PageOfClaims(req: Request, page: int)
    requires req.pageSize > 0
    ensures var p := PagePermissions(Claims(req), page, req.pageSize);
            && (p.read <==> ReadablePage(req, page)) && (p.write <==> WritablePage(req, page))
            && (p.execute <==> ExecutablePage(req, page))
    ensures Touched(Claims(req), page, req.pageSize) <==> UsedPage(req, page)
    ensures forall s :: IsPageSource(Claims(req), page, req.pageSize, s) <==> SourceOfPage(req, page, s)
  {
    hide Claims, Touches;
    forall c
      ensures c in Claims(req) <==>
              || c == Claim(req.stack, Permissions(true, true, false), StackSource)
              || exists m :: m in req.mappings && c == Claim(m.range, m.permissions, MappingSource(m.sourceIndex))
    {
      ClaimMembers(req, c);
    }
    StackIsClaim(req);
    forall m | m in req.mappings
      ensures Claim(m.range, m.permissions, MappingSource(m.sourceIndex)) in Claims(req)
    {
    }
  }

  lemma StackIsClaim(req: Request)
    ensures Claim(req.stack, Permissions(true, true, false), StackSource) in Claims(req)
  {
    ClaimMembers(req, Claim(req.stack, Permissions(true, true, false), StackSource));
  }

  lemma OrderedSources(sources: seq<Source>)
    requires StrictlySortedBy(sources, SourceKey)
    ensures SourcesInOrder(sources)
  {
    forall i, j | 0 <= i < j < |sources|
      ensures sources[i].MappingSource? && (sources[j].MappingSource? ==> sources[i].index < sources[j].index)
    {
      assert SourceKey(sources[i]) < SourceKey(sources[j]);
    }
  }

  lemma MatchingPlanDescribes(req: Request, plan: Plan)
    requires PlanMatches(req, plan)
    ensures PlanDescribes(req, plan)
  {
    hide PagePermissions, IsPageSource, Touched, Claims, UsedPage, ReadablePage, WritablePage, ExecutablePage;
    hide SourceOfPage, StrictlySortedBy, SourcesInOrder;
    forall page: int
      ensures var p := PagePermissions(Claims(req), page, req.pageSize);
              && (p.read <==> ReadablePage(req, page)) && (p.write <==> WritablePage(req, page))
              && (p.execute <==> ExecutablePage(req, page))
      ensures Touched(Claims(req), page, req.pageSize) <==> UsedPage(req, page)
      ensures forall s :: IsPageSource(Claims(req), page, req.pageSize, s) <==> SourceOfPage(req, page, s)
    {
      PageOfClaims(req, page);
    }
    forall i | 0 <= i < |plan.regions|
      ensures SourcesInOrder(plan.regions[i].sources)
    {
      OrderedSources(plan.regions[i].sources);
    }
    forall i, a: int | 0 <= i < |plan.regions| && Contains(plan.regions[i].range, a)
      ensures RegionDescribes(req, plan.regions[i], a / req.pageSize)
    {
      assert RegionMeans(Claims(req), req.pageSize, plan.regions[i], a / req.pageSize);
      assert plan.regions[i].sources[0] in plan.regions[i].sources;
      SourcedPageIsUsed(req, a / req.pageSize, plan.regions[i].sources[0]);
    }
  }

  lemma SourcedPageIsUsed(req: Request, page: int, s: Source)
    requires req.pageSize > 0 && SourceOfPage(req, page, s)
    ensures UsedPage(req, page)
  {
  }

  /** The conditions on claims are conditions on the mappings and the stack. */
  lemma RefusalsDescribed(req: Request)
    requires req.pageSize > 0
    ensures AnyMixedPage(req) <==> exists page :: page >= 0 && MixedPageOf(req, page)
    ensures forall page :: MixedPage(Claims(req), page, req.pageSize) <==> MixedPageOf(req, page)
    ensures WholeSpace(req) <==> EverythingEverywhere(req)
  {
    hide Claims, Touches, PagePermissions, WritablePage, ExecutablePage;
    forall page: int
      ensures MixedPage(Claims(req), page, req.pageSize) <==> MixedPageOf(req, page)
    {
      PageOfClaims(req, page);
    }
    StackIsClaim(req);
    forall c
      ensures c in Claims(req) <==>
              || c == Claim(req.stack, Permissions(true, true, false), StackSource)
              || exists m :: m in req.mappings && c == Claim(m.range, m.permissions, MappingSource(m.sourceIndex))
    {
      ClaimMembers(req, c);
    }
    forall m | m in req.mappings
      ensures Claim(m.range, m.permissions, MappingSource(m.sourceIndex)) in Claims(req)
    {
    }
  }

  lemma ExplainedIsDescribed(req: Request, e: PlanError)
    requires Explains(req, e) && !Plannable(req)
    ensures RefusalDescribes(req, e)
  {
    hide Claims, MixedPage, MixedPageOf, WholeSpace, EverythingEverywhere, IsPowerOfTwo, EntryMapped, EntryExecutable;
    if IsPowerOfTwo(req.pageSize) {
      PositivePower(req.pageSize);
      RefusalsDescribed(req);
    }
  }

  /** What a request must be like, over its mappings and its stack. */
  ghost predicate CanBePlanned(req: Request) {
    && IsPowerOfTwo(req.pageSize) && req.pageSize > 0
    && (forall page :: page >= 0 ==> !MixedPageOf(req, page)) && !EverythingEverywhere(req)
    && EntryMapped(req) && EntryExecutable(req) && Contains(req.stack, req.stackPointer)
  }

  lemma PlannableMeans(req: Request)
    ensures Plannable(req) <==> CanBePlanned(req)
  {
    hide Claims, MixedPage, MixedPageOf, WholeSpace, EverythingEverywhere, IsPowerOfTwo, EntryMapped, EntryExecutable;
    if IsPowerOfTwo(req.pageSize) {
      PositivePower(req.pageSize);
      RefusalsDescribed(req);
    }
  }

  /** `build_execution_memory_plan`: exactly the plannable requests succeed, with the plan that the
      page-by-page definition describes; every refusal is explained. The definition is stated twice: over
      claims, as the proof needs it, and over the mappings and the stack of the request. */
  method BuildExecutionMemoryPlan(req: Request) returns (r: Result<Plan, PlanError>)
    ensures r.Ok? <==> Plannable(req)
    ensures r.Ok? ==> PlanMatches(req, r.value)
    ensures r.Err? ==> Explains(req, r.error)
    ensures r.Ok? <==> CanBePlanned(req)
    ensures r.Ok? ==> PlanDescribes(req, r.value)
    ensures r.Err? ==> RefusalDescribes(req, r.error)
  {
    hide Plannable, PlanMatches, Explains, CanBePlanned, PlanDescribes, RefusalDescribes;
    r := PlanClaims(req);
    PlannableMeans(req);
    if r.Ok? {
      MatchingPlanDescribes(req, r.value);
    } else {
      ExplainedIsDescribed(req, r.error);
    }
  }

  /** The planner over claims. */
  method PlanClaims(req: Request) returns (r: Result<Plan, PlanError>)
    ensures r.Ok? <==> Plannable(req)
    ensures r.Ok? ==> PlanMatches(req, r.value)
    ensures r.Err? ==> Explains(req, r.error)
  {
    hide Boundaries, UnionAt, SourcesAt, Swept, MixedPage, WholeSpace, PlanMatches, EntryMapped, EntryExecutable,
         SpansOf, Claims;
    var ps := req.pageSize;
    if !IsPowerOfTwo(ps) {
      return Err(PlanError(InvalidHostPageSize, None));
    }
    var spans := BuildSpans(req);
    SpansOfFit(Claims(req), ps);
    var bs := CollectBoundaries(spans, U64_MAX / ps);
    WholeSpaceIsOneBoundary(req, bs);
    var swept := Sweep(spans, ps, bs);
    forall page: int
      ensures MixedPage(Claims(req), page, ps) <==> Mixed(UnionAt(spans, page))
    {
      MixedMeans(req, page);
    }
    if swept.MixedAt? {
      assert MixedPage(Claims(req), swept.page, ps);
      return Err(PlanError(MixedWriteExecutePage, Some(swept.page * ps)));
    }
    if swept.TooLarge? {
      NotMixedAnywhere(req);
      return Err(PlanError(HostPageArithmeticOverflow, Some(0)));
    }
    SweptMatches(req, swept.regions);
    var mapped, executable := FindEntry(req);
    if !mapped {
      return Err(PlanError(EntryPointUnmapped, Some(req.entry)));
    }
    if !executable {
      return Err(PlanError(EntryPointNotExecutable, Some(req.entry)));
    }
    if !Contains(req.stack, req.stackPointer) {
      return Err(PlanError(StackPointerUnmapped, Some(req.stackPointer)));
    }
    return Ok(Plan(ps, swept.regions));
  }

  lemma NotMixedAnywhere(req: Request)
    requires IsPowerOfTwo(req.pageSize)
    requires var spans := SpansOf(Claims(req), req.pageSize);
             Uniform(spans, 0, U64_MAX / req.pageSize) && !Mixed(UnionAt(spans, 0))
    ensures !AnyMixedPage(req)
  {
    hide UnionAt, SourcesAt, MixedPage, Claims, SpansOf;
    var spans := SpansOf(Claims(req), req.pageSize);
    forall page | page >= 0
      ensures !MixedPage(Claims(req), page, req.pageSize)
    {
      MixedMeans(req, page);
      if page > U64_MAX / req.pageSize {
        NothingBeyond(Claims(req), req.pageSize, page);
      }
    }
  }
}
