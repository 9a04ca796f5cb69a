/** Page allocation at a chosen alignment: over-allocate, then give back both ends. */
module AlignedPages {
  import opened Pages
  import opened PageTheorems
  import opened FreeEdges
  import opened PageMaps
  import opened Powers

  /** Pages allocated in total for `n` pages at the alignment: `Pages + EFI_SIZE_TO_PAGES (Alignment)`. */
  function RealPages(n: nat, alignment: nat): nat {
    if alignment > PAGE_SIZE then n + SizeToPages(alignment) else n
  }

  function SizeToPages(size: nat): nat {
    size / PAGE_SIZE + if size % PAGE_SIZE != 0 then 1 else 0
  }

  /** The list and the address after the request; address 0 is the NULL result. */
  function AllocateAligned(l: seq<Node>, m: MemoryType, n: nat, alignment: nat): (seq<Node>, nat)
    requires RealPages(n, alignment) < ADDRESS_LIMIT
  {
    if n == 0 then (l, 0)
    else
      var o := AllocatePages(l, AnyPages, m, RealPages(n, alignment), 0);
      if o.status != Success then (l, 0)
      else if alignment <= PAGE_SIZE then (o.nodes, o.memory)
      else
        var start := RoundUp(o.memory, alignment);
        var before := SizeToPages(start - o.memory);
        var after := RealPages(n, alignment) - n - before;
        var l1 := if before > 0 then FreePages(o.nodes, o.memory, before).0 else o.nodes;
        var l2 := if after > 0 then FreePages(l1, start + PAGE_SIZE * n, after).0 else l1;
        (l2, start)
  }

  predicate ValidAlignment(alignment: nat) {
    alignment == 0 || IsPowerOfTwo(alignment)
  }

  lemma LargeAlignmentIsWholePages(alignment: nat)
    requires alignment > PAGE_SIZE && IsPowerOfTwo(alignment)
    ensures alignment % PAGE_SIZE == 0
  {
    var k := HighBitSet(alignment);
    assert Pow2(12) == PAGE_SIZE;
    if k <= 12 {
      Pow2Monotone(k, 12);
    }
    Pow2Sum(k - 12, 12);
    MultipleOf(Pow2(k - 12), PAGE_SIZE);
  }

  lemma SmallAlignmentDividesPages(alignment: nat, a: int)
    requires 0 < alignment <= PAGE_SIZE && IsPowerOfTwo(alignment) && Aligned(a)
    ensures a % alignment == 0
  {
    var k := HighBitSet(alignment);
    assert Pow2(12) == PAGE_SIZE;
    if k > 12 {
      Pow2Monotone(13, k);
    }
    Pow2Sum(k, 12 - k);
    MultipleTrans(a, alignment, Pow2(12 - k));
  }

  /** The trimming arithmetic: what is given back at the front and at the back. */
  lemma TrimShape(memory: nat, n: nat, alignment: nat)
    requires alignment > PAGE_SIZE && IsPowerOfTwo(alignment) && Aligned(memory)
    ensures var start := RoundUp(memory, alignment);
            var before := SizeToPages(start - memory);
            && start % alignment == 0 && Aligned(start)
            && start == memory + PAGE_SIZE * before
            && PAGE_SIZE * SizeToPages(alignment) == alignment
            && before < SizeToPages(alignment)
  {
    hide RoundUp, IsPowerOfTwo;
    LargeAlignmentIsWholePages(alignment);
    var start := RoundUp(memory, alignment);
    MultipleTrans(start, PAGE_SIZE, alignment / PAGE_SIZE);
    TrimPages(memory, start, alignment);
  }

  lemma TrimPages(memory: nat, start: nat, alignment: nat)
    requires Aligned(memory) && Aligned(start) && Aligned(alignment) && memory <= start < memory + alignment
    ensures start == memory + PAGE_SIZE * SizeToPages(start - memory)
    ensures PAGE_SIZE * SizeToPages(alignment) == alignment
    ensures SizeToPages(start - memory) < SizeToPages(alignment)
  {
  }

  /** Giving back the head of a range just removed leaves exactly the rest removed. */
  lemma GiveBackHead(l: seq<Node>, l0: seq<Node>, memory: nat, total: nat, before: nat)
    requires Canonical(l) && Canonical(l0) && 0 < memory && Aligned(memory)
    requires memory + PAGE_SIZE * total < ADDRESS_LIMIT
    requires AllFree(l, memory, total) && Removes(l, l0, memory, total) && 1 <= before <= total
    ensures FreePages(l0, memory, before).1 == Success
    ensures var l1 := FreePages(l0, memory, before).0;
            Canonical(l1) && Removes(l, l1, memory + PAGE_SIZE * before, total - before)
  {
    FreePagesIsExact(l0, memory, before);
    var l1 := FreePages(l0, memory, before).0;
    assert NoneFree(l0, memory, before);
    forall a
      ensures FreeAt(l1, a) <==> FreeAt(l, a) && !InRange(a, memory + PAGE_SIZE * before, total - before)
    {
      assert FreeAt(l1, a) <==> FreeAt(l0, a) || InRange(a, memory, before);
      assert InRange(a, memory, total) <==>
             InRange(a, memory, before) || InRange(a, memory + PAGE_SIZE * before, total - before);
    }
  }

  /** The same at the tail end. */
  lemma GiveBackTail(l: seq<Node>, l1: seq<Node>, start: nat, n: nat, after: nat)
    requires Canonical(l) && Canonical(l1) && 0 < start && Aligned(start) && after >= 1
    requires start + PAGE_SIZE * (n + after) < ADDRESS_LIMIT
    requires AllFree(l, start, n + after) && Removes(l, l1, start, n + after)
    ensures FreePages(l1, start + PAGE_SIZE * n, after).1 == Success
    ensures var l2 := FreePages(l1, start + PAGE_SIZE * n, after).0;
            Canonical(l2) && Removes(l, l2, start, n)
  {
    var tail := start + PAGE_SIZE * n;
    FreePagesIsExact(l1, tail, after);
    var l2 := FreePages(l1, tail, after).0;
    forall a | InRange(a, tail, after) ensures !FreeAt(l1, a) {
      assert InRange(a, start, n + after);
    }
    assert NoneFree(l1, tail, after);
    forall a ensures FreeAt(l2, a) <==> FreeAt(l, a) && !InRange(a, start, n) {
      assert FreeAt(l2, a) <==> FreeAt(l1, a) || InRange(a, tail, after);
      assert InRange(a, start, n + after) <==> InRange(a, start, n) || InRange(a, tail, after);
    }
  }

  /** Both trims of an over-allocated range succeed, and exactly the aligned range stays taken. */
  lemma TrimBothEnds(l: seq<Node>, l0: seq<Node>, memory: nat, n: nat, alignment: nat)
    requires Canonical(l) && Canonical(l0) && Aligned(memory) && n >= 1
    requires alignment > PAGE_SIZE && IsPowerOfTwo(alignment) && ProperRange(memory, RealPages(n, alignment))
    requires AllFree(l, memory, RealPages(n, alignment)) && Removes(l, l0, memory, RealPages(n, alignment))
    ensures var start := RoundUp(memory, alignment);
            var before := SizeToPages(start - memory);
            var after := RealPages(n, alignment) - n - before;
            var l1 := if before > 0 then FreePages(l0, memory, before).0 else l0;
            && (before > 0 ==> FreePages(l0, memory, before).1 == Success)
            && after > 0 && FreePages(l1, start + PAGE_SIZE * n, after).1 == Success
            && Canonical(FreePages(l1, start + PAGE_SIZE * n, after).0)
            && Removes(l, FreePages(l1, start + PAGE_SIZE * n, after).0, start, n)
  {
    hide FreePages;
    TrimShape(memory, n, alignment);
    var total := RealPages(n, alignment);
    var start := RoundUp(memory, alignment);
    var before := SizeToPages(start - memory);
    var after := total - n - before;
    if before > 0 {
      GiveBackHead(l, l0, memory, total, before);
    }
    var l1 := if before > 0 then FreePages(l0, memory, before).0 else l0;
    forall a | InRange(a, start, n + after) ensures FreeAt(l, a) {
      assert InRange(a, memory, total);
    }
    assert Removes(l, l1, start, n + after);
    GiveBackTail(l, l1, start, n, after);
  }

  ghost predicate RunOf(l: seq<Node>, total: nat) {
    exists y :: Candidate(l, y, total, 0xFFFF_FFFF_FFFF_FFFF)
  }

  /** `r` is at most one alignment into the highest free run of `total` pages. */
  ghost predicate InHighest(l: seq<Node>, r: nat, total: nat, alignment: nat) {
    exists y :: Highest(l, y, total, 0xFFFF_FFFF_FFFF_FFFF) && y <= r < y + alignment
  }

  /** The aligned address in the highest free run that is longer than asked for by one alignment; for
      alignments up to a page, simply the highest run. */
  ghost predicate AlignedInHighest(l: seq<Node>, r: nat, n: nat, alignment: nat) {
    if alignment <= 4096 then Highest(l, r, n, 0xFFFF_FFFF_FFFF_FFFF)
    else r % alignment == 0 && InHighest(l, r, n + alignment / 4096, alignment)
  }

  /** A free run of the size the request looks for: one alignment more than asked for, if the alignment is
      larger than a page. */
  ghost predicate RunFound(l: seq<Node>, n: nat, alignment: nat) {
    RunOf(l, if alignment <= 4096 then n else n + alignment / 4096)
  }

  /** The result is aligned and exactly its `n` pages leave the free set; the request fails exactly
      when no free run of the enlarged size exists. */
  lemma AllocateAlignedIsExact(l: seq<Node>, m: MemoryType, n: nat, alignment: nat)
    requires Canonical(l) && ValidAlignment(alignment) && RealPages(n, alignment) < ADDRESS_LIMIT
    ensures var (l', r) := AllocateAligned(l, m, n, alignment);
            && Canonical(l')
            && (r == 0 ==> l' == l)
            && (r != 0 ==>
                  && (alignment > 0 ==> r % alignment == 0) && Aligned(r) && ProperRange(r, n)
                  && AllFree(l, r, n) && Removes(l, l', r, n) && AlignedInHighest(l, r, n, alignment))
            && (r != 0 <==> n > 0 && m != OtherMemory && RunFound(l, n, alignment))
  {
    hide AllocatePages, FreePages, Canonical, AlignedInHighest, Highest, RunFound;
    var (l', r) := AllocateAligned(l, m, n, alignment);
    var total := RealPages(n, alignment);
    if n > 0 {
      EnlargedRun(l, n, alignment);
      var o := AllocatePages(l, AnyPages, m, total, 0);
      AllocatePagesMeaning(l, AnyPages, m, total, 0);
      if o.status == Success {
        GrantedRange(l, o.memory, total);
        if alignment > PAGE_SIZE {
          TrimShape(o.memory, n, alignment);
          TrimBothEnds(l, o.nodes, o.memory, n, alignment);
          forall a | InRange(a, r, n) ensures FreeAt(l, a) {
            assert InRange(a, o.memory, total);
          }
        } else if alignment > 0 {
          SmallAlignmentDividesPages(alignment, r);
        }
        FoundInHighest(l, o.memory, r, n, alignment);
      }
    }
  }

  /** The enlarged request is the one for `n` pages and one alignment; it is found only below 2^52 pages. */
  lemma EnlargedRun(l: seq<Node>, n: nat, alignment: nat)
    requires Canonical(l) && ValidAlignment(alignment) && n > 0
    ensures RealPages(n, alignment) == if alignment <= 4096 then n else n + alignment / 4096
    ensures RunFound(l, n, alignment) <==> RunOf(l, RealPages(n, alignment))
    ensures RunFound(l, n, alignment) ==> RealPages(n, alignment) <= MAX_PAGES
  {
    hide IsPowerOfTwo, Canonical, RunOf;
    if alignment > PAGE_SIZE {
      LargeAlignmentIsWholePages(alignment);
    }
    if RunFound(l, n, alignment) {
      FoundRunIsSmall(l, RealPages(n, alignment));
    }
  }

  lemma FoundRunIsSmall(l: seq<Node>, total: nat)
    requires Canonical(l) && total > 0 && RunOf(l, total)
    ensures total <= MAX_PAGES
  {
    var y :| Candidate(l, y, total, ALL_ONES);
    var j := CandidateIsInAFittingNode(l, y, total, ALL_ONES);
  }

  lemma FoundInHighest(l: seq<Node>, memory: nat, r: nat, n: nat, alignment: nat)
    requires Highest(l, memory, if alignment <= 4096 then n else n + alignment / 4096, ALL_ONES)
    requires if alignment <= 4096 then r == memory else r % alignment == 0 && memory <= r < memory + alignment
    ensures AlignedInHighest(l, r, n, alignment)
  {
    hide Highest;
    if alignment > 4096 {
      var total := n + alignment / 4096;
      assert Highest(l, memory, total, 0xFFFF_FFFF_FFFF_FFFF);
    }
  }

  /** Two free pages at an 8 KB boundary are not found by a request for two pages at that alignment:
      the enlarged request asks for four. */
  lemma AlignedRunCanBeMissed()
    ensures var l := [Node(0x20_0000, 2)];
            && Canonical(l) && ValidAlignment(0x2000) && 0x20_0000 % 0x2000 == 0 && AllFree(l, 0x20_0000, 2)
            && AllocateAligned(l, RuntimeServicesData, 2, 0x2000) == (l, 0)
  {
    var l := [Node(0x20_0000, 2)];
    assert Pow2(13) == 0x2000;
    HighBitOfPower(13);
    AllFreeMeansOneNode(l, 2, 0x20_0000);
    AllocateAlignedIsExact(l, RuntimeServicesData, 2, 0x2000);
    if RunOf(l, 4) {
      var y :| Candidate(l, y, 4, 0xFFFF_FFFF_FFFF_FFFF);
      var j := CandidateIsInAFittingNode(l, y, 4, ALL_ONES);
    }
    assert !RunFound(l, 2, 0x2000);
  }

  /** A free of part of what was just taken: the ASSERTs of the original, on the merge and on the
      status, hold. */
  method GiveBack(pageMap: PageMap, memory: nat, n: nat)
    requires pageMap.Valid() && ProperRange(memory, n)
    requires Pages.FreePages(pageMap.nodes, memory, n).1 == Success
    modifies pageMap
    ensures pageMap.Valid() && pageMap.nodes == Pages.FreePages(old(pageMap.nodes), memory, n).0
  {
    hide Pages.FreePages, FreeAsserts;
    ProperFreeAsserts(pageMap.nodes, memory, n);
    var status := pageMap.FreePages(memory, n);
    assert status == Success;
  }

  /** The branch for alignments above a page. */
  method AllocateAndTrim(pageMap: PageMap, m: MemoryType, n: nat, alignment: nat) returns (r: nat)
    requires pageMap.Valid() && alignment > PAGE_SIZE && IsPowerOfTwo(alignment)
    requires n > 0 && RealPages(n, alignment) < ADDRESS_LIMIT
    modifies pageMap
    ensures pageMap.Valid() && (pageMap.nodes, r) == AllocateAligned(old(pageMap.nodes), m, n, alignment)
  {
    hide Pages.AllocatePages, Pages.FreePages, Canonical, AllFree, Removes, IsPowerOfTwo;
    ghost var l := pageMap.nodes;
    var mask := alignment - 1;
    var total := n + SizeToPages(alignment);
    assert total > n;
    var memory, status := pageMap.AllocatePages(AnyPages, m, total, 0);
    if status != Success {
      return 0;
    }
    TrimShape(memory, n, alignment);
    TrimBothEnds(l, pageMap.nodes, memory, n, alignment);
    r := (memory + mask) / alignment * alignment;
    var unaligned := SizeToPages(r - memory);
    if unaligned > 0 {
      GiveBack(pageMap, memory, unaligned);
    }
    memory := r + PAGE_SIZE * n;
    unaligned := total - n - unaligned;
    if unaligned > 0 {
      GiveBack(pageMap, memory, unaligned);
    }
  }

  /** InternalAllocateAlignedPages on the shared list. */
  method AllocateAlignedPages(pageMap: PageMap, m: MemoryType, n: nat, alignment: nat) returns (r: nat)
    requires pageMap.Valid() && ValidAlignment(alignment) && RealPages(n, alignment) < ADDRESS_LIMIT
    modifies pageMap
    ensures pageMap.Valid() && (pageMap.nodes, r) == AllocateAligned(old(pageMap.nodes), m, n, alignment)
  {
    hide Pages.AllocatePages, Pages.FreePages, Canonical, AllFree, Removes;
    if n == 0 {
      return 0;
    }
    if alignment > PAGE_SIZE {
      r := AllocateAndTrim(pageMap, m, n, alignment);
    } else {
      var status;
      r, status := pageMap.AllocatePages(AnyPages, m, n, 0);
      if status != Success {
        return 0;
      }
    }
  }
}
