/** The pool lists and block headers, updated in place over the shared page list. */
module MemoryServices {
  import opened Pages
  import opened FreeEdges
  import opened PageMaps
  import opened Regions
  import opened AlignedPages
  import opened Powers
  import opened Pool

  /** A descriptor that start-up hands to the page list. */
  predicate Accepted(r: Region) {
    r.start >= ONE_MB && Usable(r)
  }

  /** A byte that start-up should make free: in a whole page of a descriptor from 1 MB on that is not in use
      and needs neither testing nor ECC initialisation. */
  predicate SpanHolds(r: Region, a: int) {
    && r.start >= 0x10_0000 && !r.inUse && !r.needsTesting && !r.needsEcc
    && PageInside(a, r.start, r.size)
  }

  ghost predicate NoOverlap(ranges: seq<Region>) {
    forall i, j, a: int :: 0 <= i < j < |ranges| ==> !(SpanHolds(ranges[i], a) && SpanHolds(ranges[j], a))
  }

  /** The page list after the first `k` descriptors. */
  function AddAll(ranges: seq<Region>, k: nat): seq<Node>
    requires k <= |ranges|
  {
    if k == 0 then []
    else
      var l, r := AddAll(ranges, k - 1), ranges[k - 1];
      if r.start < ONE_MB then l else AddRegion(l, r)
  }

  ghost predicate OnlySpans(l: seq<Node>, ranges: seq<Region>) {
    forall a: int :: FreeAt(l, a) ==> exists i :: 0 <= i < |ranges| && SpanHolds(ranges[i], a)
  }

  ghost predicate AllSpans(l: seq<Node>, ranges: seq<Region>) {
    forall i, a: int :: 0 <= i < |ranges| && SpanHolds(ranges[i], a) ==> FreeAt(l, a)
  }

  lemma SkippedRegion(l: seq<Node>, ranges: seq<Region>, r: Region)
    requires OnlySpans(l, ranges) && !Accepted(r)
    ensures OnlySpans(l, ranges + [r])
    ensures AllSpans(l, ranges) ==> AllSpans(l, ranges + [r])
  {
    forall a: int | FreeAt(l, a) ensures exists i :: 0 <= i < |ranges + [r]| && SpanHolds((ranges + [r])[i], a) {
      var i :| 0 <= i < |ranges| && SpanHolds(ranges[i], a);
      assert SpanHolds((ranges + [r])[i], a);
    }
  }

  /** One more descriptor. */
  lemma AcceptedRegion(l: seq<Node>, ranges: seq<Region>, k: nat)
    requires Canonical(l) && k < |ranges| && OnlySpans(l, ranges[..k])
    requires Accepted(ranges[k]) ==> WholeRegion(ranges[k])
    ensures var l' := if ranges[k].start < ONE_MB then l else AddRegion(l, ranges[k]);
            && Canonical(l') && OnlySpans(l', ranges[..k + 1])
            && (NoOverlap(ranges) && AllSpans(l, ranges[..k]) ==> AllSpans(l', ranges[..k + 1]))
  {
    var r, done := ranges[k], ranges[..k];
    assert ranges[..k + 1] == done + [r];
    if !Accepted(r) {
      SkippedRegion(l, done, r);
    } else {
      hide AddSpan, AddRegion, WholePages, AlignedBase, SpanInMemory, FreePages, PageInside;
      RegionBecomesFree(l, r);
      var l' := AddRegion(l, r);
      assert Canonical(l');
      forall a: int | FreeAt(l', a)
        ensures exists i :: 0 <= i < |done + [r]| && SpanHolds((done + [r])[i], a)
      {
        if FreeAt(l, a) {
          var i :| 0 <= i < |done| && SpanHolds(done[i], a);
          assert SpanHolds((done + [r])[i], a);
        } else {
          assert SpanHolds((done + [r])[k], a);
        }
      }
      if NoOverlap(ranges) && AllSpans(l, done) {
        forall a: int | PageInside(a, r.start, r.size) ensures !FreeAt(l, a) {
          assert SpanHolds(ranges[k], a);
          assert forall i :: 0 <= i < |done| ==> done[i] == ranges[i] && !SpanHolds(done[i], a);
        }
      }
    }
  }

  /** Every descriptor that start-up takes holds a whole page. */
  predicate AllWhole(ranges: seq<Region>) {
    forall i :: 0 <= i < |ranges| && Accepted(ranges[i]) ==> WholeRegion(ranges[i])
  }

  /** The merge ASSERT holds while the descriptors are added one after the other. */
  ghost predicate StartAsserts(ranges: seq<Region>) {
    forall k :: 0 <= k < |ranges| && Accepted(ranges[k]) ==> RegionAsserts(AddAll(ranges, k), ranges[k])
  }

  /** What the first `k` descriptors leave free, when all hold a whole page. */
  lemma {:induction false} StartMeaning(ranges: seq<Region>, k: nat)
    requires AllWhole(ranges) && k <= |ranges|
    ensures Canonical(AddAll(ranges, k)) && OnlySpans(AddAll(ranges, k), ranges[..k])
    ensures NoOverlap(ranges) ==> AllSpans(AddAll(ranges, k), ranges[..k])
  {
    hide OnlySpans, AllSpans, NoOverlap, Canonical, AddRegion, WholeRegion;
    if k == 0 {
      NothingAdded();
    } else {
      StartMeaning(ranges, k - 1);
      AcceptedRegion(AddAll(ranges, k - 1), ranges, k - 1);
    }
  }

  lemma NothingAdded()
    ensures Canonical([]) && OnlySpans([], []) && AllSpans([], [])
  {
  }

  /** Descriptors with whole pages never meet the ASSERT, whatever their order and overlaps. */
  lemma WholeRegionsNeverAssert(ranges: seq<Region>)
    requires AllWhole(ranges)
    ensures StartAsserts(ranges)
  {
    hide Canonical, WholeRegion, RegionAsserts, AddRegion, OnlySpans, AllSpans;
    forall k | 0 <= k < |ranges| && Accepted(ranges[k]) ensures RegionAsserts(AddAll(ranges, k), ranges[k]) {
      StartMeaning(ranges, k);
      WholeRegionAsserts(AddAll(ranges, k), ranges[k]);
    }
  }

  class Services {
    const pageMap: PageMap
    var pools: seq<seq<nat>>
    var headers: map<nat, Header>

    ghost function View(): Heap
      reads this, pageMap
    {
      Heap(pageMap.nodes, pools, headers)
    }

    ghost predicate Valid()
      reads this, pageMap
    {
      pageMap.Valid() && |pools| == CLASSES
    }

    constructor (pageMap: PageMap)
      requires pageMap.nodes == []
      ensures this.pageMap == pageMap && Valid() && View() == Heap([], EmptyClasses(), map[])
    {
      this.pageMap := pageMap;
      pools := EmptyClasses();
      headers := map[];
    }

    /** MmInitializeMemoryServices: the usable descriptors from 1 MB on are added in order. What the original
        asks is that the merge ASSERT holds on the way, as it does when every descriptor it takes has a
        whole page. Then only whole pages can become free, and when no two overlap, exactly those do. */
    method Initialize(ranges: seq<Region>)
      requires |pools| == CLASSES && pageMap.nodes == [] && StartAsserts(ranges)
      modifies this, pageMap
      ensures |pools| == CLASSES && pools == EmptyClasses() && pageMap.nodes == AddAll(ranges, |ranges|)
      ensures AllWhole(ranges) ==> Valid() && OnlySpans(pageMap.nodes, ranges)
      ensures AllWhole(ranges) && NoOverlap(ranges) ==> AllSpans(pageMap.nodes, ranges)
    {
      hide AddSpan, WholePages, AlignedBase, CountedPages, FreeAsserts, Canonical, OnlySpans, AllSpans, NoOverlap;
      pools := EmptyClasses();
      var index := 0;
      while index < |ranges|
        invariant index <= |ranges| && pools == EmptyClasses() && pageMap.nodes == AddAll(ranges, index)
      {
        var r := ranges[index];
        if r.start >= ONE_MB {
          assert Accepted(r) ==> RegionAsserts(AddAll(ranges, index), r);
          pageMap.AddMemoryRegion(r);
        }
        index := index + 1;
      }
      if AllWhole(ranges) {
        StartMeaning(ranges, |ranges|);
        assert ranges[..index] == ranges;
      }
    }

    method AllocPoolByIndex(i: nat) returns (status: Status, hdr: nat)
      requires Valid() && i <= CLASSES
      modifies this, pageMap
      ensures Valid()
      ensures match AllocIndex(old(View()), i)
              case None => status == OutOfResources && View() == old(View())
              case Some(t) => status == Success && View() == t.heap && hdr == t.block
      decreases CLASSES - i
    {
      hide Pages.AllocatePages, BlockSize, Removes, AllFree, Canonical;
      ghost var h := View();
      hdr := 0;
      if i == CLASSES {
        assert SizeToPages(MAX_POOL_SIZE * 2) == 1;
        hdr, status := pageMap.AllocatePages(AnyPages, RuntimeServicesData, SizeToPages(MAX_POOL_SIZE * 2), 0);
        if status != Success {
          return OutOfResources, 0;
        }
      } else if pools[i] != [] {
        hdr := pools[i][0];
        pools := pools[i := pools[i][1..]];
        status := Success;
      } else {
        status, hdr := AllocPoolByIndex(i + 1);
        if status == Success {
          ghost var t := AllocIndex(h, i + 1).value;
          assert AllocIndex(h, i) == Some(SplitOff(t.heap, i, t.block));
          headers := headers[hdr := Header(headers[hdr].size / 2, true)];
          pools := pools[i := [hdr] + pools[i]];
          hdr := hdr + headers[hdr].size;
        }
      }
      if status == Success {
        headers := headers[hdr := Header(BlockSize(i), false)];
      }
    }

    method FreePoolByIndex(hdr: nat)
      requires Valid() && FreeAssertsHold(View(), hdr) && headers[hdr].size <= MAX_POOL_SIZE
      modifies this
      ensures Valid() && (View(), Success) == Pool.FreePool(old(View()), hdr + HEADER_SIZE)
    {
      ClassOfSize(headers[hdr].size);
      var i := HighBitSet(headers[hdr].size) - MIN_POOL_SHIFT;
      headers := headers[hdr := Header(headers[hdr].size, true)];
      pools := pools[i := [hdr] + pools[i]];
    }

    method AllocatePool(m: MemoryType, size: nat) returns (buffer: nat, status: Status)
      requires Valid() && size < ADDRESS_LIMIT && size + HEADER_SIZE != ADDRESS_LIMIT
      modifies this, pageMap
      ensures Valid() && PoolOutcome(View(), buffer, status) == Pool.AllocatePool(old(View()), m, size)
      ensures status != Success ==> View() == old(View())
    {
      hide Pages.AllocatePages, AllocIndex;
      if m != RuntimeServicesCode && m != RuntimeServicesData {
        return 0, InvalidParameter;
      }
      var total := Wrap(size + HEADER_SIZE);
      if total > MAX_POOL_SIZE {
        var n := SizeToPages(total);
        var address;
        address, status := pageMap.AllocatePages(AnyPages, m, n, 0);
        if status != Success {
          return 0, status;
        }
        headers := headers[address := Header(PAGE_SIZE * n, false)];
        return address + HEADER_SIZE, status;
      }
      PoolIndexIsSmallest(total);
      var units := (total + MIN_POOL_SIZE - 1) / MIN_POOL_SIZE;
      var i := HighBitSet(units);
      if !IsPowerOfTwo(units) {
        i := i + 1;
      }
      var hdr;
      status, hdr := AllocPoolByIndex(i);
      buffer := if status == Success then hdr + HEADER_SIZE else 0;
    }

    method FreePool(buffer: nat) returns (status: Status)
      requires Valid()
      requires buffer != 0 ==> buffer >= HEADER_SIZE && FreeAssertsHold(View(), buffer - HEADER_SIZE)
      requires buffer != 0 && headers[buffer - HEADER_SIZE].size > MAX_POOL_SIZE ==>
        buffer > HEADER_SIZE && buffer - HEADER_SIZE + headers[buffer - HEADER_SIZE].size < ADDRESS_LIMIT
      modifies this, pageMap
      ensures Valid() && (View(), status) == Pool.FreePool(old(View()), buffer)
      ensures buffer == 0 ==> status == InvalidParameter && View() == old(View())
    {
      hide Pages.FreePages;
      if buffer == 0 {
        return InvalidParameter;
      }
      var hdr := buffer - HEADER_SIZE;
      assert hdr + HEADER_SIZE == buffer;
      if headers[hdr].size > MAX_POOL_SIZE {
        ProperFreeAsserts(pageMap.nodes, hdr, SizeToPages(headers[hdr].size));
        status := pageMap.FreePages(hdr, SizeToPages(headers[hdr].size));
      } else {
        FreePoolByIndex(hdr);
        status := Success;
      }
    }
  }
}
