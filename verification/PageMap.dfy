/** The global free-page list, updated in place. */
module PageMaps {
  import opened Pages
  import opened PageTheorems
  import opened FreeEdges
  import opened Regions

  class PageMap {
    var nodes: seq<Node>

    ghost predicate Valid()
      reads this
    {
      Canonical(nodes)
    }

    constructor ()
      ensures Valid() && nodes == []
    {
      nodes := [];
    }

    method AllocPagesOnOneNode(i: nat, n: nat, max: nat) returns (addr: nat)
      requires i < |nodes|
      modifies this
      ensures (nodes, addr) == AllocOnNode(old(nodes), i, n, max)
    {
      var pages := nodes[i];
      var top := TruncateToPages(Wrap(max + 1 - pages.base));
      if top > pages.pages {
        top := pages.pages;
      }
      var bottom := Wrap(top - n);
      if top < pages.pages {
        var node := Node(Wrap(pages.base + PagesToSize(top)), pages.pages - top);
        nodes := nodes[..i + 1] + [node] + nodes[i + 1..];
      }
      if bottom > 0 {
        nodes := nodes[i := Node(pages.base, bottom)];
      } else {
        nodes := nodes[..i] + nodes[i + 1..];
      }
      addr := Wrap(pages.base + PagesToSize(bottom));
      assert nodes == AllocOnNode(old(nodes), i, n, max).0;
    }

    method AllocMaxAddress(n: nat, max: nat) returns (addr: nat)
      modifies this
      ensures (nodes, addr) == AllocBelow(old(nodes), n, max)
    {
      hide AllocOnNode;
      var i := |nodes|;
      while i > 0
        invariant 0 <= i <= |nodes| && nodes == old(nodes)
        invariant LastFit(nodes, n, max) == LastFitBefore(nodes, n, max, i)
      {
        i := i - 1;
        if nodes[i].pages >= n && Wrap(nodes[i].base + PagesToSize(n) - 1) <= max {
          addr := AllocPagesOnOneNode(i, n, max);
          return;
        }
      }
      addr := ALL_ONES;
    }

    method AllocAddress(n: nat, address: nat) returns (addr: nat)
      requires address < ADDRESS_LIMIT
      modifies this
      ensures (nodes, addr) == AllocAt(old(nodes), n, address)
    {
      hide AllocOnNode;
      if !Aligned(address) {
        return ALL_ONES - address;
      }
      var end := Wrap(address + PagesToSize(n));
      var i := |nodes|;
      while i > 0
        invariant 0 <= i <= |nodes| && nodes == old(nodes)
        invariant LastAtOrBelow(nodes, address) == LastStartBefore(nodes, address, i)
      {
        i := i - 1;
        if nodes[i].base <= address {
          if Wrap(nodes[i].base + PagesToSize(nodes[i].pages)) < end {
            break;
          }
          addr := AllocPagesOnOneNode(i, n, end);
          return;
        }
      }
      addr := ALL_ONES - address;
    }

    /** MmInternalAllocatePages: `memory` is the in-out address argument. Every request gets the value
        form's outcome; a request for at least one page, at an address where the range does not wrap
        if an address is given, is served as its type says. */
    method AllocatePages(t: AllocateType, m: MemoryType, n: nat, memory: nat)
      returns (result: nat, status: Status)
      requires Valid() && memory < ADDRESS_LIMIT
      modifies this
      ensures Outcome(nodes, result, status) == Pages.AllocatePages(old(nodes), t, m, n, memory)
      ensures ProperRequest(t, n, memory) ==>
        Valid() && Served(old(nodes), t, m, n, memory, Outcome(nodes, result, status))
    {
      hide AllocBelow, AllocAt;
      if ProperRequest(t, n, memory) {
        AllocatePagesMeaning(nodes, t, m, n, memory);
      }
      if m != RuntimeServicesCode && m != RuntimeServicesData {
        return memory, InvalidParameter;
      }
      if n > TruncateToPages(ALL_ONES) + 1 {
        return memory, OutOfResources;
      }
      var requested := memory;
      match t
      case OtherType =>
        return memory, InvalidParameter;
      case Address =>
        result := AllocAddress(n, requested);
        status := if result != requested then NotFound else Success;
      case AnyPages =>
        requested := ALL_ONES;
        result := AllocMaxAddress(n, requested);
        status := if result == ALL_ONES then OutOfResources else Success;
      case MaxAddress =>
        result := AllocMaxAddress(n, requested);
        status := if result == ALL_ONES then OutOfResources else Success;
    }

    /** Merges node `i` with the next one if they touch; the ASSERT of the original is the precondition. */
    method MergeNodes(i: nat) returns (next: nat)
      requires i + 1 < |nodes| && MergeAssert(nodes, i)
      modifies this
      ensures (nodes, next) == Merge(old(nodes), i)
    {
      next := i + 1;
      if TruncateToPages(Wrap(nodes[i + 1].base - nodes[i].base)) == nodes[i].pages {
        nodes := nodes[i := nodes[i].(pages := Wrap(nodes[i].pages + nodes[i + 1].pages))];
        nodes := nodes[..i + 1] + nodes[i + 2..];
        next := i;
        assert nodes == Merge(old(nodes), i).0;
      }
    }

    /** Walks forward to the first node above `memory`. */
    method FindAbove(memory: nat) returns (k: nat)
      ensures k == FirstAbove(nodes, memory)
    {
      k := 0;
      while k < |nodes|
        invariant k <= |nodes| && FirstAbove(nodes, memory) == FirstAboveFrom(nodes, memory, k)
      {
        if memory < nodes[k].base {
          return;
        }
        k := k + 1;
      }
    }

    /** Inserts the range before node `k` and merges it with the nodes that touch it. */
    method InsertAndMerge(k: nat, memory: nat, n: nat)
      requires k == FirstAbove(nodes, memory) && Aligned(memory) && !Refused(nodes, memory, n)
      requires FreeAsserts(nodes, memory, n)
      modifies this
      ensures nodes == Insert(old(nodes), memory, n)
    {
      hide FirstAbove, Refused, Merge, MergeAssert;
      var last := k == |nodes|;
      nodes := nodes[..k] + [Node(memory, n)] + nodes[k..];
      var i := k;
      if k > 0 {
        i := MergeNodes(k - 1);
      }
      assert (nodes, i) == JoinDown(old(nodes), memory, n);
      if !last {
        var _ := MergeNodes(i);
      }
    }

    /** MmInternalFreePages: what the original asks is that its merge ASSERT holds, and
        `MergeAssertsHoldExactly` says when. On a proper range of a canonical list, a success adds exactly
        the range and happens exactly when no byte of it is free; otherwise nothing changes. */
    method FreePages(memory: nat, n: nat) returns (status: Status)
      requires FreeAsserts(nodes, memory, n)
      modifies this
      ensures (nodes, status) == Pages.FreePages(old(nodes), memory, n)
      ensures status != Success ==> status == InvalidParameter && nodes == old(nodes)
      ensures old(Valid()) && ProperRange(memory, n) ==>
        && Valid() && (status == Success <==> Aligned(memory) && NoneFree(old(nodes), memory, n))
        && (status == Success ==> Adds(old(nodes), nodes, memory, n))
    {
      hide Insert, FirstAbove, FreeAsserts, Canonical, NoneFree, Adds, FreeAt;
      if Valid() && ProperRange(memory, n) {
        FreePagesIsExact(nodes, memory, n);
      }
      if !Aligned(memory) {
        return InvalidParameter;
      }
      var k := FindAbove(memory);
      if k < |nodes| && Wrap(memory + PagesToSize(n)) > nodes[k].base {
        return InvalidParameter;
      }
      if k > 0 && Wrap(nodes[k - 1].base + PagesToSize(nodes[k - 1].pages)) > memory {
        return InvalidParameter;
      }
      InsertAndMerge(k, memory, n);
      status := Success;
    }

    /** The start of the region rounded up to a page. */
    static method FirstPage(start: nat) returns (base: nat)
      ensures base == AlignedBase(start)
    {
      base := TruncateToPages(Wrap(start + PAGE_SIZE - 1)) * PAGE_SIZE;
    }

    /** The length of the region from `base` on, in whole pages. */
    static method PagesFrom(base: nat, r: Region) returns (n: nat)
      requires base == AlignedBase(r.start)
      ensures n == CountedPages(r.start, r.size)
    {
      var length := Wrap(r.size - (base - r.start));
      n := TruncateToPages(length);
    }

    /** MmAddMemoryRegion: the result of the free is ignored. Of a usable span clear of both ends of the
        address space that holds a whole page, exactly the whole pages become free, unless one is
        already. */
    method AddMemoryRegion(r: Region)
      requires RegionAsserts(nodes, r)
      modifies this
      ensures nodes == AddRegion(old(nodes), r)
      ensures old(Valid()) && WholeRegion(r) ==> Valid() && (Usable(r) ==>
        var start, w := AlignedBase(r.start), WholePages(r.start, r.size);
        if NoneFree(old(nodes), start, w) then Adds(old(nodes), nodes, start, w) else nodes == old(nodes))
    {
      hide Pages.FreePages, AlignedBase, WholePages, CountedPages, AddSpan;
      hide SpanInMemory, Wrap, TruncateToPages, Canonical, NoneFree, Adds, FreeAsserts;
      if r.inUse || r.needsTesting || r.needsEcc {
        return;
      }
      if Valid() && WholeRegion(r) {
        AddSpanWithPages(nodes, r.start, r.size);
      }
      var base := FirstPage(r.start);
      var pages := PagesFrom(base, r);
      AddSpanFrees(nodes, r.start, r.size);
      var _ := FreePages(base, pages);
    }
  }
}
