/** What each operation on the free-page list achieves, for every canonical list. */
module PageTheorems {
  import opened Pages

  // ----- Allocation below a limit

  /** The number of pages of node `p` that lie at or below the limit. */
  function Top(p: Node, max: nat): nat {
    var room := TruncateToPages(Wrap(max + 1 - p.base));
    if room > p.pages then p.pages else room
  }

  lemma AllocOnNodeCarves(l: seq<Node>, i: nat, n: nat, max: nat, base: nat)
    requires Canonical(l) && i < |l| && 1 <= n <= Top(l[i], max)
    requires base == l[i].base + PAGE_SIZE * (Top(l[i], max) - n)
    ensures Aligned(base) && base + PAGE_SIZE * n <= l[i].End()
    ensures AllocOnNode(l, i, n, max) == (Splice(l, i, 1, Remains(l[i], base, n)), base)
  {
    var p := l[i];
    var top := Top(p, max);
    assert (base - p.base) / PAGE_SIZE == top - n;
    assert Wrap(top - n) == top - n;
    assert PagesToSize(top) == PAGE_SIZE * top;
    assert PagesToSize(top - n) == PAGE_SIZE * (top - n);
    assert l[..i] + (Remains(p, base, n)) + l[i + 1..] == AllocOnNode(l, i, n, max).0;
  }

  /** `MaxAddress + 1` wraps to 0 for the all-ones limit, and the subtraction wraps back. */
  lemma RoomBelowLimit(p: Node, max: nat)
    requires ValidNode(p) && max < ADDRESS_LIMIT && p.base <= max
    ensures Wrap(max + 1 - p.base) == max + 1 - p.base
  {
  }

  lemma FitsMeaning(p: Node, n: nat, max: nat)
    requires ValidNode(p) && n >= 1 && max < ADDRESS_LIMIT
    ensures Fits(p, n, max) <==> n <= p.pages && p.base + PAGE_SIZE * n - 1 <= max
    ensures Fits(p, n, max) ==> n <= Top(p, max)
  {
    if n <= p.pages {
      assert PagesToSize(n) == PAGE_SIZE * n;
    }
    if Fits(p, n, max) {
      RoomBelowLimit(p, max);
    }
  }

  lemma CandidateIsInAFittingNode(l: seq<Node>, y: int, n: nat, max: nat) returns (j: nat)
    requires Canonical(l) && n >= 1 && max < ADDRESS_LIMIT && Candidate(l, y, n, max)
    ensures j < |l| && Holds(l[j], y) && y + PAGE_SIZE * n <= l[j].End() && Fits(l[j], n, max)
  {
    assert InRange(y, y, n);
    j :| 0 <= j < |l| && Holds(l[j], y);
    RunLiesInOneNode(l, y, n, j);
    FitsMeaning(l[j], n, max);
  }

  lemma NothingHigherInNode(p: Node, y: int, n: nat, max: nat)
    requires ValidNode(p) && n >= 1 && max < ADDRESS_LIMIT && Fits(p, n, max) && Aligned(y)
    requires p.base <= y && y + PAGE_SIZE * n <= p.End() && y + PAGE_SIZE * n - 1 <= max
    ensures y <= p.base + PAGE_SIZE * (Top(p, max) - n)
  {
    FitsMeaning(p, n, max);
    RoomBelowLimit(p, max);
    var q := (y - p.base) / PAGE_SIZE;
    assert y == p.base + PAGE_SIZE * q;
    assert q + n <= TruncateToPages(max + 1 - p.base);
  }

  /** AllocateMaxAddress (and, with the all-ones limit, AllocateAnyPages) hands out the highest
      aligned run of free pages at or below the limit, and fails exactly when there is none. */
  lemma AllocBelowIsHighest(l: seq<Node>, n: nat, max: nat)
    requires Canonical(l) && n >= 1 && max < ADDRESS_LIMIT
    ensures var (l', r) := AllocBelow(l, n, max);
            && Canonical(l')
            && (r == ALL_ONES <==> forall y :: !Candidate(l, y, n, max))
            && (r == ALL_ONES ==> l' == l)
            && (r != ALL_ONES ==>
                  && Candidate(l, r, n, max) && Removes(l, l', r, n) && 0 < r
                  && forall y :: Candidate(l, y, n, max) ==> y <= r)
  {
    var i := LastFit(l, n, max);
    var (l', r) := AllocBelow(l, n, max);
    if i < 0 {
      forall y ensures !Candidate(l, y, n, max) {
        if Candidate(l, y, n, max) {
          var j := CandidateIsInAFittingNode(l, y, n, max);
        }
      }
    } else {
      FitsMeaning(l[i], n, max);
      RoomBelowLimit(l[i], max);
      AllocOnNodeCarves(l, i, n, max, l[i].base + PAGE_SIZE * (Top(l[i], max) - n));
      CarveMeaning(l, i, r, n);
      forall a | InRange(a, r, n) ensures FreeAt(l, a) {
        assert Holds(l[i], a);
      }
      assert Candidate(l, r, n, max);
      forall y | Candidate(l, y, n, max) ensures y <= r {
        var j := CandidateIsInAFittingNode(l, y, n, max);
        if j == i {
          NothingHigherInNode(l[i], y, n, max);
        }
      }
      assert !Aligned(ALL_ONES);
    }
  }

  // ----- Allocation at a given address

  /** What AllocateAddress promises: it takes exactly the range when all of it is free,
      and otherwise reports failure with the list untouched. */
  ghost predicate AllocAtKeepsItsPromise(l: seq<Node>, n: nat, addr: nat)
    requires addr < ADDRESS_LIMIT
  {
    var (l', r) := AllocAt(l, n, addr);
    && Canonical(l')
    && (r == addr <==> Aligned(addr) && AllFree(l, addr, n))
    && (r == addr ==> Removes(l, l', addr, n))
    && (r != addr ==> l' == l)
  }

  lemma AllFreeMeansOneNode(l: seq<Node>, n: nat, addr: nat)
    requires Canonical(l) && n >= 1
    ensures AllFree(l, addr, n) <==>
              var i := LastAtOrBelow(l, addr); i >= 0 && addr + PAGE_SIZE * n <= l[i].End()
  {
    var i := LastAtOrBelow(l, addr);
    if AllFree(l, addr, n) {
      assert InRange(addr, addr, n);
      var j :| 0 <= j < |l| && Holds(l[j], addr);
      assert j == i;
      RunLiesInOneNode(l, addr, n, j);
    }
    if i >= 0 && addr + PAGE_SIZE * n <= l[i].End() {
      forall a | InRange(a, addr, n) ensures FreeAt(l, a) {
        assert Holds(l[i], a);
      }
    }
  }

  lemma StopsShortMeaning(l: seq<Node>, n: nat, addr: nat)
    requires Canonical(l) && n >= 1 && addr + PAGE_SIZE * n < ADDRESS_LIMIT
    ensures StopsShort(l, n, addr) <==>
              var i := LastAtOrBelow(l, addr); i < 0 || l[i].End() < addr + PAGE_SIZE * n
  {
    var i := LastAtOrBelow(l, addr);
    assert PagesToSize(n) == PAGE_SIZE * n;
    if i >= 0 {
      assert PagesToSize(l[i].pages) == PAGE_SIZE * l[i].pages;
    }
  }

  lemma TopAtEnd(p: Node, end: nat)
    requires ValidNode(p) && p.base <= end <= p.End() && Aligned(end)
    ensures PAGE_SIZE * Top(p, end) == end - p.base
  {
    assert Wrap(end + 1 - p.base) == end + 1 - p.base;
  }

  lemma RangeTop(p: Node, n: nat, addr: nat)
    requires ValidNode(p) && Aligned(addr) && p.base <= addr && addr + PAGE_SIZE * n <= p.End()
    ensures var top := Top(p, addr + PAGE_SIZE * n);
            n <= top && p.base + PAGE_SIZE * (top - n) == addr
  {
    TopAtEnd(p, addr + PAGE_SIZE * n);
  }

  lemma AllocAtIsOnNode(l: seq<Node>, n: nat, addr: nat)
    requires Aligned(addr) && addr + PAGE_SIZE * n < ADDRESS_LIMIT && !StopsShort(l, n, addr)
    ensures AllocAt(l, n, addr) == AllocOnNode(l, LastAtOrBelow(l, addr), n, addr + PAGE_SIZE * n)
  {
    assert Wrap(addr + PagesToSize(n)) == addr + PAGE_SIZE * n;
  }

  lemma AllocAtCarves(l: seq<Node>, n: nat, addr: nat)
    requires Canonical(l) && n >= 1 && Aligned(addr) && addr + PAGE_SIZE * n < ADDRESS_LIMIT
    requires !StopsShort(l, n, addr)
    ensures var i := LastAtOrBelow(l, addr);
            && addr + PAGE_SIZE * n <= l[i].End()
            && AllocAt(l, n, addr) == (Splice(l, i, 1, Remains(l[i], addr, n)), addr)
  {
    hide AllocAt, AllocOnNode, StopsShort, Remains, Top, LastAtOrBelow;
    StopsShortMeaning(l, n, addr);
    AllocAtIsOnNode(l, n, addr);
    var i := LastAtOrBelow(l, addr);
    RangeTop(l[i], n, addr);
    AllocOnNodeCarves(l, i, n, addr + PAGE_SIZE * n, addr);
  }

  lemma AllocAtWithoutWrap(l: seq<Node>, n: nat, addr: nat)
    requires Canonical(l) && n >= 1 && addr + PAGE_SIZE * n < ADDRESS_LIMIT
    ensures AllocAtKeepsItsPromise(l, n, addr)
    ensures AllocAt(l, n, addr).1 == addr || AllocAt(l, n, addr).1 == 0xFFFF_FFFF_FFFF_FFFF - addr
  {
    AllFreeMeansOneNode(l, n, addr);
    StopsShortMeaning(l, n, addr);
    if Aligned(addr) && !StopsShort(l, n, addr) {
      AllocAtCarves(l, n, addr);
      CarveMeaning(l, LastAtOrBelow(l, addr), addr, n);
    }
  }

  /** A request that runs past the top of the address space is never satisfiable ... */
  lemma WrappingRangeIsNotFree(l: seq<Node>, n: nat, addr: nat)
    requires Canonical(l) && n >= 1 && addr + PAGE_SIZE * n >= ADDRESS_LIMIT
    ensures !AllFree(l, addr, n)
  {
    AllFreeMeansOneNode(l, n, addr);
  }

  /** ... but once the one node looked at passes the wrapped comparison, that node is resized
      or removed all the same. */
  lemma WrappingRequestDamagesTheList(l: seq<Node>, n: nat, addr: nat)
    requires Canonical(l) && 1 <= n <= MAX_PAGES && addr < ADDRESS_LIMIT && Aligned(addr)
    requires addr + PAGE_SIZE * n >= ADDRESS_LIMIT && !StopsShort(l, n, addr)
    ensures AllocAt(l, n, addr).0 != l
  {
    hide LastAtOrBelow;
    var i := LastAtOrBelow(l, addr);
    var p := l[i];
    var max := Wrap(addr + PagesToSize(n));
    var top := Top(p, max);
    var bottom := Wrap(top - n);
    var l' := AllocAt(l, n, addr).0;
    assert bottom != p.pages;
    if bottom > 0 {
      assert l'[i] == Node(p.base, bottom);
    } else {
      assert top == p.pages;
      assert |l'| == |l| - 1;
    }
  }

  /** AllocateAddress keeps its promise exactly when the end of the range does not wrap, or the
      request is turned away by one of the two tests made before the list is touched. */
  lemma AllocAtKeepsItsPromiseExactly(l: seq<Node>, n: nat, addr: nat)
    requires Canonical(l) && 1 <= n <= MAX_PAGES && addr < ADDRESS_LIMIT
    ensures AllocAtKeepsItsPromise(l, n, addr) <==>
              addr + PAGE_SIZE * n < ADDRESS_LIMIT || !Aligned(addr) || StopsShort(l, n, addr)
  {
    if addr + PAGE_SIZE * n < ADDRESS_LIMIT {
      AllocAtWithoutWrap(l, n, addr);
    } else {
      WrappingRangeIsNotFree(l, n, addr);
      if Aligned(addr) && !StopsShort(l, n, addr) {
        WrappingRequestDamagesTheList(l, n, addr);
      }
    }
  }

  /** One free page at 1 MB; asking for the last page of the address space removes it. */
  lemma WrappingRequestExample()
    ensures var l := [Node(0x10_0000, 1)];
            && Canonical(l)
            && AllocAt(l, 1, ADDRESS_LIMIT - PAGE_SIZE) == ([], 0x10_0000)
            && !AllocAtKeepsItsPromise(l, 1, ADDRESS_LIMIT - PAGE_SIZE)
  {
    var l := [Node(0x10_0000, 1)];
    var addr := ADDRESS_LIMIT - PAGE_SIZE;
    assert LastAtOrBelow(l, addr) == 0;
    assert Wrap(addr + PagesToSize(1)) == 0;
    assert Wrap(0 + 1 - 0x10_0000) == ADDRESS_LIMIT + 1 - 0x10_0000;
    assert AllocAt(l, 1, addr) == AllocOnNode(l, 0, 1, 0);
    assert AllocOnNode(l, 0, 1, 0) == ([], 0x10_0000);
    assert Canonical(l);
    AllocAtKeepsItsPromiseExactly(l, 1, addr);
  }

  // ----- Release

  lemma FreeNodesWide(l: seq<Node>, memory: nat, n: nat)
    requires Canonical(l) && n >= 1 && memory + PAGE_SIZE * n < ADDRESS_LIMIT
    ensures var k := FirstAbove(l, memory);
            NoneFree(l, memory, n) <==>
              && (k < |l| ==> memory + PAGE_SIZE * n <= l[k].base)
              && (k > 0 ==> l[k - 1].End() <= memory)
  {
    var k := FirstAbove(l, memory);
    if NoneFree(l, memory, n) {
      if k < |l| && memory + PAGE_SIZE * n > l[k].base {
        assert InRange(l[k].base, memory, n) && Holds(l[k], l[k].base);
      }
      if k > 0 && l[k - 1].End() > memory {
        assert InRange(memory, memory, n) && Holds(l[k - 1], memory);
      }
    }
  }

  /** Comparing two neighbours decides whether any byte of the range is already free. */
  lemma RefusedMeansOverlap(l: seq<Node>, memory: nat, n: nat)
    requires Canonical(l) && n >= 1 && memory + PAGE_SIZE * n < ADDRESS_LIMIT
    ensures Refused(l, memory, n) <==> !NoneFree(l, memory, n)
  {
    FreeNodesWide(l, memory, n);
    var k := FirstAbove(l, memory);
    assert PagesToSize(n) == PAGE_SIZE * n;
    if k > 0 {
      assert PagesToSize(l[k - 1].pages) == PAGE_SIZE * l[k - 1].pages;
    }
  }

  predicate TouchesBelow(l: seq<Node>, memory: nat) {
    var k := FirstAbove(l, memory);
    k > 0 && l[k - 1].End() == memory
  }

  predicate TouchesAbove(l: seq<Node>, memory: nat, n: nat) {
    var k := FirstAbove(l, memory);
    k < |l| && memory + PAGE_SIZE * n == l[k].base
  }

  /** The freed range joined with the node just below it, if they touch. */
  function JoinedBelow(l: seq<Node>, memory: nat, n: nat): (nat, Node) {
    var k := FirstAbove(l, memory);
    if TouchesBelow(l, memory) then (k - 1, Node(l[k - 1].base, l[k - 1].pages + n)) else (k, Node(memory, n))
  }

  /** The node that absorbs the freed range and whichever neighbours touch it: where it goes,
      how many old nodes it replaces, and what it is. */
  function Joined(l: seq<Node>, memory: nat, n: nat): (nat, nat, Node) {
    var k := FirstAbove(l, memory);
    var (i, p) := JoinedBelow(l, memory, n);
    if TouchesAbove(l, memory, n) then (i, k + 1 - i, Node(p.base, p.pages + l[k].pages)) else (i, k - i, p)
  }

  lemma MergeTest(p: Node, q: Node)
    requires Aligned(p.base) && Aligned(q.base) && p.End() <= q.base < ADDRESS_LIMIT
    ensures TruncateToPages(Wrap(q.base - p.base)) >= p.pages
    ensures TruncateToPages(Wrap(q.base - p.base)) == p.pages <==> p.End() == q.base
  {
    assert Wrap(q.base - p.base) == q.base - p.base;
  }

  /** Joining the new node downwards, then upwards, as two splices into the original list. */
  lemma InsertJoinsDown(l: seq<Node>, memory: nat, n: nat)
    requires Canonical(l) && Aligned(memory) && memory < ADDRESS_LIMIT
    requires var k := FirstAbove(l, memory); k > 0 && l[k - 1].End() <= memory
    ensures var k := FirstAbove(l, memory);
            var inserted := l[..k] + [Node(memory, n)] + l[k..];
            && MergeAssert(inserted, k - 1)
            && JoinDown(l, memory, n) ==
                 if l[k - 1].End() == memory
                 then (l[..k - 1] + [Node(l[k - 1].base, Wrap(l[k - 1].pages + n))] + l[k..], k - 1)
                 else (inserted, k)
  {
    var k := FirstAbove(l, memory);
    var freed := Node(memory, n);
    var inserted := l[..k] + [freed] + l[k..];
    assert inserted[k - 1] == l[k - 1] && inserted[k] == freed;
    MergeTest(l[k - 1], freed);
    assert inserted[..k - 1] == l[..k - 1] && inserted[k - 1 + 2..] == l[k..];
  }

  lemma InsertJoinsUp(front: seq<Node>, p: Node, back: seq<Node>)
    requires back != [] && Aligned(p.base) && ValidNode(back[0]) && p.End() <= back[0].base
    ensures Merge(front + [p] + back, |front|).0 ==
              if p.End() == back[0].base
              then front + [Node(p.base, p.pages + back[0].pages)] + back[1..]
              else front + [p] + back
  {
    var l := front + [p] + back;
    assert l[|front|] == p && l[|front| + 1] == back[0];
    MergeTest(p, back[0]);
    assert l[..|front|] == front && l[|front| + 2..] == back[1..];
  }

  lemma InsertAfterJoinBelow(l: seq<Node>, memory: nat, n: nat)
    requires Canonical(l) && Aligned(memory) && memory + PAGE_SIZE * n < ADDRESS_LIMIT
    requires var k := FirstAbove(l, memory); k > 0 ==> l[k - 1].End() <= memory
    ensures var k := FirstAbove(l, memory);
            var (i, p) := JoinedBelow(l, memory, n);
            var joined := l[..i] + [p] + l[k..];
            && JoinDown(l, memory, n) == (joined, i)
            && Insert(l, memory, n) == if k < |l| then Merge(joined, i).0 else joined
  {
    if FirstAbove(l, memory) > 0 {
      InsertJoinsDown(l, memory, n);
    }
  }

  lemma JoinAboveSplices(l: seq<Node>, i: nat, k: nat, p: Node)
    requires i <= k <= |l| && Aligned(p.base)
    requires k < |l| ==> ValidNode(l[k]) && p.End() <= l[k].base
    ensures var joined := l[..i] + [p] + l[k..];
            (if k < |l| then Merge(joined, i).0 else joined) ==
              if k < |l| && p.End() == l[k].base
              then Splice(l, i, k + 1 - i, [Node(p.base, p.pages + l[k].pages)])
              else Splice(l, i, k - i, [p])
  {
    if k < |l| {
      InsertJoinsUp(l[..i], p, l[k..]);
      assert l[k..][1..] == l[k + 1..];
    }
  }

  lemma JoinedBelowShape(l: seq<Node>, memory: nat, n: nat)
    requires Canonical(l) && Aligned(memory) && ProperRange(memory, n) && NoneFree(l, memory, n)
    ensures var k := FirstAbove(l, memory);
            var (i, p) := JoinedBelow(l, memory, n);
            && i <= k && Aligned(p.base) && p.End() == memory + PAGE_SIZE * n
            && (k < |l| ==> ValidNode(l[k]) && p.End() <= l[k].base)
            && (k > 0 ==> l[k - 1].End() <= memory)
  {
    hide FirstAbove, NoneFree;
    FreeNodesWide(l, memory, n);
  }

  lemma InsertSplices(l: seq<Node>, memory: nat, n: nat)
    requires Canonical(l) && Aligned(memory) && ProperRange(memory, n) && NoneFree(l, memory, n)
    ensures var (i, w, p) := Joined(l, memory, n);
            i + w <= |l| && Insert(l, memory, n) == Splice(l, i, w, [p])
  {
    hide Insert, Merge, FirstAbove, NoneFree, JoinedBelow, JoinDown, Canonical, Splice;
    JoinedBelowShape(l, memory, n);
    InsertAfterJoinBelow(l, memory, n);
    var (i, p) := JoinedBelow(l, memory, n);
    JoinAboveSplices(l, i, FirstAbove(l, memory), p);
  }

  lemma WindowBytes(l: seq<Node>, memory: nat, n: nat, a: int)
    requires Canonical(l) && n >= 1 && memory + PAGE_SIZE * n < ADDRESS_LIMIT
    ensures var (i, w, p) := Joined(l, memory, n);
            && i + w <= |l|
            && (Holds(p, a) <==> InRange(a, memory, n) || FreeAt(l[i..i + w], a))
  {
    hide FirstAbove;
    var k := FirstAbove(l, memory);
    var (i, w, p) := Joined(l, memory, n);
    var mid := l[i..i + w];
    if i < k {
      assert mid[0] == l[k - 1];
    }
    if i + w > k {
      assert mid[w - 1] == l[k];
    }
    assert w == 0 || FreeAt(mid, a) == (Holds(mid[0], a) || Holds(mid[w - 1], a));
  }

  lemma JoinedFitsTheGap(l: seq<Node>, memory: nat, n: nat)
    requires Canonical(l) && Aligned(memory) && ProperRange(memory, n) && NoneFree(l, memory, n)
    ensures var (i, w, p) := Joined(l, memory, n);
            && i + w <= |l| && ValidNode(p)
            && (i > 0 ==> l[i - 1].End() < p.base)
            && (i + w < |l| ==> p.End() < l[i + w].base)
  {
    FreeNodesWide(l, memory, n);
  }

  lemma JoinedBytes(l: seq<Node>, i: nat, w: nat, p: Node, a: int)
    requires Canonical(l) && i + w <= |l|
    ensures FreeAt(Splice(l, i, w, [p]), a) <==> Holds(p, a) || (FreeAt(l, a) && !FreeAt(l[i..i + w], a))
    ensures FreeAt(l[i..i + w], a) ==> FreeAt(l, a)
  {
    SpliceBytes(l, i, w, [p], a);
    assert Holds([p][0], a) == Holds(p, a);
    if FreeAt(l[i..i + w], a) {
      var j :| 0 <= j < w && Holds(l[i..i + w][j], a);
      assert Holds(l[i + j], a);
    }
  }

  lemma InsertMeaning(l: seq<Node>, memory: nat, n: nat)
    requires Canonical(l) && Aligned(memory) && ProperRange(memory, n) && NoneFree(l, memory, n)
    ensures Canonical(Insert(l, memory, n)) && Adds(l, Insert(l, memory, n), memory, n)
  {
    hide Joined, Insert, NoneFree, Splice;
    InsertSplices(l, memory, n);
    JoinedFitsTheGap(l, memory, n);
    var (i, w, p) := Joined(l, memory, n);
    SpliceKeepsCanonical(l, i, w, [p]);
    forall a ensures FreeAt(Insert(l, memory, n), a) <==> FreeAt(l, a) || InRange(a, memory, n) {
      JoinedBytes(l, i, w, p, a);
      WindowBytes(l, memory, n, a);
    }
  }

  /** FreePages succeeds exactly when the range is aligned and no byte of it is free already;
      then exactly its bytes become free, and otherwise the list is untouched. */
  lemma FreePagesIsExact(l: seq<Node>, memory: nat, n: nat)
    requires Canonical(l) && ProperRange(memory, n)
    ensures var (l', status) := FreePages(l, memory, n);
            && Canonical(l')
            && (status == Success <==> Aligned(memory) && NoneFree(l, memory, n))
            && (status == Success ==> Adds(l, l', memory, n))
            && (status != Success ==> status == InvalidParameter && l' == l)
  {
    RefusedMeansOverlap(l, memory, n);
    if Aligned(memory) && NoneFree(l, memory, n) {
      InsertMeaning(l, memory, n);
    }
  }

  /** At least one page and, at a given address, a range that does not wrap. */
  predicate ProperRequest(t: AllocateType, n: nat, memory: nat) {
    n >= 1 && (t == Address ==> memory + PAGE_SIZE * n < ADDRESS_LIMIT)
  }

  /** The highest address that could serve a request for `n` pages ending at or below `max`. */
  ghost predicate Highest(l: seq<Node>, y: int, n: nat, max: int) {
    Candidate(l, y, n, max) && forall z :: Candidate(l, z, n, max) ==> z <= y
  }

  /** A request that may be served anywhere up to `max`: granted the highest place there is, and out of
      resources exactly when there is none. */
  ghost predicate ServedBelow(l: seq<Node>, n: nat, max: nat, o: Outcome) {
    if exists y :: Candidate(l, y, n, max)
    then o.status == Success && Highest(l, o.memory, n, max)
    else o.status == OutOfResources && o.memory == 0xFFFF_FFFF_FFFF_FFFF
  }

  /** What a page request of each type owes its caller: which status, which address, which list. */
  ghost predicate Served(l: seq<Node>, t: AllocateType, m: MemoryType, n: nat, memory: nat, o: Outcome) {
    && (m == OtherMemory ==> o == Outcome(l, memory, InvalidParameter))
    && (m != OtherMemory && n > 0x10_0000_0000_0000 ==> o == Outcome(l, memory, OutOfResources))
    && (m != OtherMemory && n <= 0x10_0000_0000_0000 ==>
          match t
          case AnyPages => ServedBelow(l, n, 0xFFFF_FFFF_FFFF_FFFF, o)
          case MaxAddress => ServedBelow(l, n, memory, o)
          case Address =>
            if Aligned(memory) && AllFree(l, memory, n)
            then o.status == Success && o.memory == memory
            else o.status == NotFound && o.memory == 0xFFFF_FFFF_FFFF_FFFF - memory
          case OtherType => o == Outcome(l, memory, InvalidParameter))
    && Canonical(o.nodes) && (o.status != Success ==> o.nodes == l)
    && (o.status == Success ==>
          && Aligned(o.memory) && ProperRange(o.memory, n)
          && AllFree(l, o.memory, n) && Removes(l, o.nodes, o.memory, n))
  }

  /** The whole contract of a page request, whatever its type. */
  lemma AllocatePagesMeaning(l: seq<Node>, t: AllocateType, m: MemoryType, n: nat, memory: nat)
    requires Canonical(l) && memory < ADDRESS_LIMIT && ProperRequest(t, n, memory)
    ensures Served(l, t, m, n, memory, AllocatePages(l, t, m, n, memory))
  {
    hide AllocAt, AllocBelow, Canonical, Removes;
    if t == Address {
      AllocAtWithoutWrap(l, n, memory);
      assert 2 * memory != 0xFFFF_FFFF_FFFF_FFFF;
    } else {
      AllocBelowIsHighest(l, n, if t == AnyPages then ALL_ONES else memory);
    }
    var o := AllocatePages(l, t, m, n, memory);
    if o.status == Success {
      GrantedRange(l, o.memory, n);
    }
  }

  lemma GrantedRange(l: seq<Node>, memory: nat, n: nat)
    requires Canonical(l) && n >= 1 && AllFree(l, memory, n)
    ensures ProperRange(memory, n)
  {
    AllFreeMeansOneNode(l, n, memory);
  }

  // ----- Round trips

  /** Giving back a range that was just taken restores the identical list. */
  lemma FreeUndoesAllocate(l: seq<Node>, l': seq<Node>, memory: nat, n: nat)
    requires Canonical(l) && Canonical(l') && Aligned(memory) && ProperRange(memory, n)
    requires AllFree(l, memory, n) && Removes(l, l', memory, n)
    ensures FreePages(l', memory, n) == (l, Success)
  {
    FreePagesIsExact(l', memory, n);
    CanonicalIsUnique(FreePages(l', memory, n).0, l);
  }

  /** For every request of every type: allocate, then free the result, and the list is as before. */
  lemma AllocateThenFreeRestores(l: seq<Node>, t: AllocateType, m: MemoryType, n: nat, memory: nat)
    requires Canonical(l) && memory < ADDRESS_LIMIT && ProperRequest(t, n, memory)
    ensures var o := AllocatePages(l, t, m, n, memory);
            o.status == Success ==> FreePages(o.nodes, o.memory, n) == (l, Success)
  {
    var o := AllocatePages(l, t, m, n, memory);
    AllocatePagesMeaning(l, t, m, n, memory);
    if o.status == Success {
      FreeUndoesAllocate(l, o.nodes, o.memory, n);
    }
  }

  /** The other way round: what was freed can be taken back at the same address. */
  lemma FreeThenAllocateRestores(l: seq<Node>, memory: nat, n: nat)
    requires Canonical(l) && ProperRange(memory, n)
    ensures var (l', status) := FreePages(l, memory, n);
            status == Success ==> AllocAt(l', n, memory) == (l, memory)
  {
    FreePagesIsExact(l, memory, n);
    var (l', status) := FreePages(l, memory, n);
    if status == Success {
      AllocAtWithoutWrap(l', n, memory);
      CanonicalIsUnique(AllocAt(l', n, memory).0, l);
    }
  }

  /** A second free of the same range is refused. */
  lemma DoubleFreeIsRefused(l: seq<Node>, memory: nat, n: nat, inner: nat, m: nat)
    requires Canonical(l) && ProperRange(memory, n)
    requires ProperRange(inner, m)
    requires exists a :: InRange(a, memory, n) && InRange(a, inner, m)
    requires FreePages(l, memory, n).1 == Success
    ensures var l' := FreePages(l, memory, n).0;
            FreePages(l', inner, m) == (l', InvalidParameter)
  {
    FreePagesIsExact(l, memory, n);
    var l' := FreePages(l, memory, n).0;
    FreePagesIsExact(l', inner, m);
  }
}
