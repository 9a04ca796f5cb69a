/** Adding memory regions to the free-page list at start-up. */
module Regions {
  import opened Pages
  import opened PageTheorems
  import opened FreeEdges

  const ONE_MB: nat := 0x10_0000

  /** A memory descriptor: where it starts, how long it is, and the three attributes that keep
      it out of the allocator. */
  datatype Region = Region(start: nat, size: nat, inUse: bool, needsTesting: bool, needsEcc: bool)

  function AlignedBase(base: nat): nat {
    TruncateToPages(Wrap(base + PAGE_SIZE - 1)) * PAGE_SIZE
  }

  /** The pages that the code counts in the span, with the length reduced modulo 2^64. */
  function CountedPages(base: nat, length: nat): (n: nat)
    ensures n < MAX_PAGES
  {
    TruncateToPages(Wrap(length - (AlignedBase(base) - base)))
  }

  function AddSpan(l: seq<Node>, base: nat, length: nat): seq<Node> {
    FreePages(l, AlignedBase(base), CountedPages(base, length)).0
  }

  predicate Usable(r: Region) {
    !r.inUse && !r.needsTesting && !r.needsEcc
  }

  function AddRegion(l: seq<Node>, r: Region): seq<Node> {
    if Usable(r) then AddSpan(l, r.start, r.size) else l
  }

  /** The merge ASSERT holds wherever adding the region comes to it. */
  predicate RegionAsserts(l: seq<Node>, r: Region) {
    Usable(r) ==> FreeAsserts(l, AlignedBase(r.start), CountedPages(r.start, r.size))
  }

  /** The number of whole pages inside the span. */
  function WholePages(base: nat, length: nat): nat {
    var start := AlignedBase(base);
    if start <= base + length then (base + length - start) / PAGE_SIZE else 0
  }

  /** Spans that stay clear of address 0 and of the top page of the address space. */
  predicate SpanInMemory(base: nat, length: nat) {
    0 < base && base + PAGE_SIZE < ADDRESS_LIMIT && base + length < ADDRESS_LIMIT
  }

  /** A region that is not usable, or one with a whole page. */
  predicate WholeRegion(r: Region) {
    Usable(r) ==> SpanInMemory(r.start, r.size) && WholePages(r.start, r.size) >= 1
  }

  /** What adding a span promises: exactly its whole pages become free, unless one is free already. */
  ghost predicate AddSpanKeepsItsPromise(l: seq<Node>, base: nat, length: nat) {
    var l' := AddSpan(l, base, length);
    var start, w := AlignedBase(base), WholePages(base, length);
    Canonical(l') && if NoneFree(l, start, w) then Adds(l, l', start, w) else l' == l
  }

  lemma AlignedBaseIsNext(base: nat)
    requires 0 < base && base + PAGE_SIZE < ADDRESS_LIMIT
    ensures Aligned(AlignedBase(base)) && base <= AlignedBase(base) < base + PAGE_SIZE
    ensures PAGE_SIZE <= AlignedBase(base)
  {
  }

  lemma WholeSpan(base: nat, length: nat)
    requires SpanInMemory(base, length) && WholePages(base, length) >= 1
    ensures var start, w := AlignedBase(base), WholePages(base, length);
            && Aligned(start) && ProperRange(start, w) && start <= base + length
            && CountedPages(base, length) == w
  {
    AlignedBaseIsNext(base);
    hide AlignedBase;
    var start := AlignedBase(base);
    assert Wrap(length - (start - base)) == length - (start - base);
  }

  lemma AddSpanFrees(l: seq<Node>, base: nat, length: nat)
    ensures AddSpan(l, base, length) == FreePages(l, AlignedBase(base), CountedPages(base, length)).0
  {
  }

  lemma WholeRegionAsserts(l: seq<Node>, r: Region)
    requires Canonical(l) && WholeRegion(r)
    ensures RegionAsserts(l, r)
  {
    hide AlignedBase, WholePages, CountedPages, FreeAsserts, SpanInMemory;
    if Usable(r) {
      WholeSpan(r.start, r.size);
      ProperFreeAsserts(l, AlignedBase(r.start), WholePages(r.start, r.size));
    }
  }

  lemma AddSpanWithPages(l: seq<Node>, base: nat, length: nat)
    requires Canonical(l) && SpanInMemory(base, length) && WholePages(base, length) >= 1
    ensures AddSpanKeepsItsPromise(l, base, length)
    ensures AddSpan(l, base, length) == FreePages(l, AlignedBase(base), WholePages(base, length)).0
  {
    WholeSpan(base, length);
    hide FreePages, AlignedBase, WholePages, CountedPages, Wrap, SpanInMemory;
    FreePagesIsExact(l, AlignedBase(base), WholePages(base, length));
  }

  /** The length underflows when the span ends before its first page boundary. */
  lemma ShortSpanPages(base: nat, length: nat)
    requires SpanInMemory(base, length) && WholePages(base, length) == 0
    ensures var start := AlignedBase(base);
            var n := CountedPages(base, length);
            && n == (if start <= base + length then 0 else MAX_PAGES - 1)
            && Wrap(start + PagesToSize(n)) <= start
  {
    AlignedBaseIsNext(base);
    var start := AlignedBase(base);
    if start > base + length {
      assert Wrap(length - (start - base)) == ADDRESS_LIMIT + length - (start - base);
      assert PagesToSize(MAX_PAGES - 1) == ADDRESS_LIMIT - PAGE_SIZE;
    }
  }

  lemma AddSpanWithoutPages(l: seq<Node>, base: nat, length: nat)
    requires Canonical(l) && SpanInMemory(base, length) && WholePages(base, length) == 0
    ensures var start := AlignedBase(base);
            AddSpanKeepsItsPromise(l, base, length) <==>
              FreeAt(l, start) || (start <= base + length && FreeAt(l, start - 1))
  {
    hide Insert, AlignedBase, Refused;
    AlignedBaseIsNext(base);
    ShortSpanPages(base, length);
    var start := AlignedBase(base);
    RefusedAtTop(l, start, CountedPages(base, length));
    if !FreeAt(l, start) {
      if start > base + length {
        WrappingFreeDamages(l, start, MAX_PAGES - 1);
      } else if FreeAt(l, start - 1) {
        InsertEmptyJoined(l, start);
      } else {
        InsertEmptyAlone(l, start);
      }
    }
    assert NoneFree(l, start, 0) && Adds(l, l, start, 0);
  }

  /** Adding a span keeps its promise exactly when the span holds a whole page, or its first page
      boundary is already free, or that boundary is inside the span and ends a free node. */
  lemma AddSpanKeepsItsPromiseExactly(l: seq<Node>, base: nat, length: nat)
    requires Canonical(l) && SpanInMemory(base, length)
    ensures var start := AlignedBase(base);
            AddSpanKeepsItsPromise(l, base, length) <==>
              || WholePages(base, length) >= 1
              || FreeAt(l, start)
              || (start <= base + length && FreeAt(l, start - 1))
  {
    if WholePages(base, length) >= 1 {
      AddSpanWithPages(l, base, length);
    } else {
      AddSpanWithoutPages(l, base, length);
    }
  }

  /** Byte `a` is in a page that lies wholly inside the span. */
  predicate PageInside(a: int, base: nat, length: nat) {
    base <= a - a % 4096 && a - a % 4096 + 4096 <= base + length
  }

  lemma WholePagesMean(base: nat, length: nat, a: int)
    requires SpanInMemory(base, length)
    ensures InRange(a, AlignedBase(base), WholePages(base, length)) <==> PageInside(a, base, length)
  {
    AlignedBaseIsNext(base);
    WholePagesCount(base, length);
    hide AlignedBase, WholePages;
    PageInRange(a, AlignedBase(base), WholePages(base, length), base, base + length);
  }

  lemma WholePagesCount(base: nat, length: nat)
    ensures var start, w := AlignedBase(base), WholePages(base, length);
            if start <= base + length then start + 4096 * w <= base + length < start + 4096 * w + 4096 else w == 0
  {
    hide AlignedBase;
  }

  lemma PageInRange(a: int, start: nat, w: nat, base: nat, end: nat)
    requires Aligned(start) && base <= start < base + 4096
    requires if start <= end then start + 4096 * w <= end < start + 4096 * w + 4096 else w == 0
    ensures start <= a < start + 4096 * w <==> base <= a - a % 4096 && a - a % 4096 + 4096 <= end
  {
    var page, first := a / 4096, start / 4096;
    assert a - a % 4096 == 4096 * page && start == 4096 * first;
  }

  /** A region with any of the three attributes is left out; of any other, clear of both ends of the address
      space and with a whole page, exactly the bytes of whole pages become free, unless one is already. */
  lemma RegionBecomesFree(l: seq<Node>, r: Region)
    requires Canonical(l) && SpanInMemory(r.start, r.size) && WholePages(r.start, r.size) >= 1
    ensures var l' := AddRegion(l, r);
            && (r.inUse || r.needsTesting || r.needsEcc ==> l' == l)
            && (!r.inUse && !r.needsTesting && !r.needsEcc ==>
                  if forall a :: PageInside(a, r.start, r.size) ==> !FreeAt(l, a)
                  then Canonical(l') && forall a :: FreeAt(l', a) <==> FreeAt(l, a) || PageInside(a, r.start, r.size)
                  else l' == l)
  {
    AddSpanWithPages(l, r.start, r.size);
    hide AddSpan, AlignedBase, WholePages, FreePages, SpanInMemory, PageInside, FreeAt, InRange;
    forall a ensures InRange(a, AlignedBase(r.start), WholePages(r.start, r.size)) <==> PageInside(a, r.start, r.size) {
      WholePagesMean(r.start, r.size, a);
    }
  }

  /** Adding a region passes the merge ASSERT if and only if its length does not underflow, or its first
      page boundary is already free, or no free node lies above that boundary. */
  lemma RegionAssertsExactly(l: seq<Node>, r: Region)
    requires Canonical(l) && Usable(r) && SpanInMemory(r.start, r.size)
    ensures var start := AlignedBase(r.start);
            RegionAsserts(l, r) <==> start <= r.start + r.size || FreeAt(l, start) || FirstAbove(l, start) == |l|
  {
    hide AlignedBase, CountedPages, FreeAsserts, Refused, FirstAbove, WholePages;
    AlignedBaseIsNext(r.start);
    if WholePages(r.start, r.size) >= 1 {
      WholeRegionAsserts(l, r);
      WholeSpan(r.start, r.size);
    } else {
      ShortSpanPages(r.start, r.size);
      var start, n := AlignedBase(r.start), CountedPages(r.start, r.size);
      RefusedAtTop(l, start, n);
      MergeAssertsHoldExactly(l, start, n);
      SumStaysSmall(l, start, n);
    }
  }

  lemma SumStaysSmall(l: seq<Node>, start: nat, n: nat)
    requires Canonical(l) && n < MAX_PAGES
    ensures !SumWraps(l, start, n)
  {
  }

  /** Ten bytes starting one byte past 1 MB turn into a node of 2^52 - 1 pages. */
  lemma ShortSpanExample()
    ensures AddSpan([], 0x10_0001, 10) == [Node(0x10_1000, MAX_PAGES - 1)]
    ensures !AddSpanKeepsItsPromise([], 0x10_0001, 10)
  {
    assert AlignedBase(0x10_0001) == 0x10_1000;
    assert Wrap(10 - 0xfff) == ADDRESS_LIMIT + 10 - 0xfff;
    assert TruncateToPages(ADDRESS_LIMIT + 10 - 0xfff) == MAX_PAGES - 1;
    AddSpanWithoutPages([], 0x10_0001, 10);
  }

  /** The same region below a free page: the merge trips over its ASSERT. */
  lemma ShortSpanAssertExample()
    ensures !RegionAsserts([Node(0x20_0000, 1)], Region(0x10_0001, 10, false, false, false))
  {
    var l, r := [Node(0x20_0000, 1)], Region(0x10_0001, 10, false, false, false);
    assert AlignedBase(0x10_0001) == 0x10_1000;
    assert FirstAbove(l, 0x10_1000) == 0;
    RegionAssertsExactly(l, r);
  }
}
