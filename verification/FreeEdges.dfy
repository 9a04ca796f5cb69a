/** Frees and page requests at the edges of what a caller may ask: no pages at all, address zero, and
    ranges that run past the top of the address space. */
module FreeEdges {
  import opened Pages
  import opened PageTheorems

  /** What every free owes the list: it stays canonical, a success adds exactly the range, and
      a failure changes nothing. */
  ghost predicate FreeKeepsItsPromise(l: seq<Node>, memory: nat, n: nat) {
    var (l', status) := FreePages(l, memory, n);
    && Canonical(l')
    && (status == Success ==> Adds(l, l', memory, n))
    && (status != Success ==> l' == l)
  }

  lemma AcceptedBelow(l: seq<Node>, memory: nat, n: nat)
    requires Canonical(l) && !Refused(l, memory, n)
    ensures var k := FirstAbove(l, memory); k > 0 ==> l[k - 1].End() <= memory
  {
    var k := FirstAbove(l, memory);
    if k > 0 {
      assert PagesToSize(l[k - 1].pages) == PAGE_SIZE * l[k - 1].pages;
    }
  }

  /** The range joins the node below it, and their page counts add up past 2^64. */
  predicate SumWraps(l: seq<Node>, memory: nat, n: nat) {
    TouchesBelow(l, memory) && l[FirstAbove(l, memory) - 1].pages + n >= ADDRESS_LIMIT
  }

  /** The node that the range ends up in once it is joined downwards, and the nodes around it. */
  lemma JoinedDown(l: seq<Node>, memory: nat, n: nat) returns (front: seq<Node>, q: Node)
    requires Canonical(l) && Aligned(memory) && memory < ADDRESS_LIMIT && n < ADDRESS_LIMIT
    requires !Refused(l, memory, n)
    ensures var k := FirstAbove(l, memory);
            && JoinDown(l, memory, n) == (front + [q] + l[k..], |front|)
            && |front| <= k <= |front| + 1 && front == l[..|front|]
            && Aligned(q.base) && q.base <= memory
            && (k > 0 ==> MergeAssert(l[..k] + [Node(memory, n)] + l[k..], k - 1))
            && (!SumWraps(l, memory, n) ==> q.End() == memory + PAGE_SIZE * n)
            && (SumWraps(l, memory, n) ==>
                  && |front| == k - 1 && q.base == l[k - 1].base && q.pages < l[k - 1].pages)
  {
    hide FirstAbove, Refused;
    AcceptedBelow(l, memory, n);
    var k := FirstAbove(l, memory);
    if k > 0 {
      InsertJoinsDown(l, memory, n);
      if l[k - 1].End() == memory {
        front, q := l[..k - 1], Node(l[k - 1].base, Wrap(l[k - 1].pages + n));
      } else {
        front, q := l[..k], Node(memory, n);
      }
    } else {
      front, q := [], Node(memory, n);
    }
  }

  /** Whether the joined node reaches the node above it decides the second merge and its ASSERT. */
  lemma MergeUp(front: seq<Node>, q: Node, back: seq<Node>)
    requires back != [] && Aligned(q.base) && ValidNode(back[0]) && q.base < back[0].base
    ensures MergeAssert(front + [q] + back, |front|) <==> q.End() <= back[0].base
    ensures q.End() != back[0].base ==> Merge(front + [q] + back, |front|).0 == front + [q] + back
  {
    var l := front + [q] + back;
    assert l[|front|] == q && l[|front| + 1] == back[0];
    assert Wrap(back[0].base - q.base) == back[0].base - q.base;
  }

  /** The ASSERTs of both merges hold if and only if the range ends at or below the next node, or there
      is no next node, or the page count wraps. */
  lemma MergeAssertsHoldExactly(l: seq<Node>, memory: nat, n: nat)
    requires Canonical(l) && memory < ADDRESS_LIMIT && n < ADDRESS_LIMIT
    ensures FreeAsserts(l, memory, n) <==>
              var k := FirstAbove(l, memory);
              || !Aligned(memory) || Refused(l, memory, n)
              || k == |l| || memory + PAGE_SIZE * n <= l[k].base || SumWraps(l, memory, n)
  {
    hide FirstAbove, Refused, SumWraps, JoinDown;
    if Aligned(memory) && !Refused(l, memory, n) {
      var k := FirstAbove(l, memory);
      var front, q := JoinedDown(l, memory, n);
      if k < |l| {
        MergeUp(front, q, l[k..]);
      }
    }
  }

  lemma ProperFreeAsserts(l: seq<Node>, memory: nat, n: nat)
    requires Canonical(l) && ProperRange(memory, n)
    ensures FreeAsserts(l, memory, n)
  {
    hide FreeAsserts, FirstAbove, Refused;
    RefusedMeansOverlap(l, memory, n);
    FreeNodesWide(l, memory, n);
    MergeAssertsHoldExactly(l, memory, n);
  }

  /** 2^52 pages have size 0 modulo 2^64, so freeing them below a free node is accepted, and then the
      second merge trips over its ASSERT. */
  lemma MergeAssertExample()
    ensures var l := [Node(0x30_0000, 1)];
            && Canonical(l) && Aligned(0x20_0000) && !Refused(l, 0x20_0000, MAX_PAGES)
            && !FreeAsserts(l, 0x20_0000, MAX_PAGES)
  {
    var l := [Node(0x30_0000, 1)];
    assert FirstAbove(l, 0x20_0000) == 0;
    MergeAssertsHoldExactly(l, 0x20_0000, MAX_PAGES);
  }

  /** Once accepted, a range that reaches the top of the address space leaves a node that does too, or
      takes away a byte that was free. */
  lemma WrappingFreeDamages(l: seq<Node>, memory: nat, n: nat)
    requires Canonical(l) && Aligned(memory) && memory < ADDRESS_LIMIT && n < ADDRESS_LIMIT
    requires memory + PAGE_SIZE * n >= ADDRESS_LIMIT && !Refused(l, memory, n)
    ensures !Canonical(Insert(l, memory, n)) || exists a: int :: FreeAt(l, a) && !FreeAt(Insert(l, memory, n), a)
  {
    hide FirstAbove, Refused, JoinDown, Merge;
    var k := FirstAbove(l, memory);
    var front, q := JoinedDown(l, memory, n);
    var l' := front + [q] + l[k..];
    if k < |l| {
      MergeUp(front, q, l[k..]);
    }
    assert Insert(l, memory, n) == l';
    if SumWraps(l, memory, n) {
      ShrunkNodeLosesItsLastByte(l, k - 1, q);
      assert l' == l[..k - 1] + [q] + l[k..];
    } else {
      assert l'[|front|] == q && !ValidNode(q);
    }
  }

  lemma ShrunkNodeLosesItsLastByte(l: seq<Node>, i: nat, q: Node)
    requires Canonical(l) && i < |l| && q.base == l[i].base && q.pages < l[i].pages
    ensures FreeAt(l, l[i].End() - 1) && !FreeAt(l[..i] + [q] + l[i + 1..], l[i].End() - 1)
  {
    var a, l' := l[i].End() - 1, l[..i] + [q] + l[i + 1..];
    assert Holds(l[i], a);
    forall j | 0 <= j < |l'| ensures !Holds(l'[j], a) {
      assert j != i ==> l'[j] == l[j];
    }
  }

  /** Two free pages at 1 MB; freeing 2^64 - 1 pages behind them leaves one. */
  lemma WrappedSumExample()
    ensures FreePages([Node(0x10_0000, 2)], 0x10_2000, ADDRESS_LIMIT - 1) == ([Node(0x10_0000, 1)], Success)
  {
    var l := [Node(0x10_0000, 2)];
    assert FirstAboveFrom(l, 0x10_2000, 1) == 1;
    var inserted := l + [Node(0x10_2000, ADDRESS_LIMIT - 1)];
    assert l[..1] + [Node(0x10_2000, ADDRESS_LIMIT - 1)] + l[1..] == inserted;
    assert TruncateToPages(0x2000) == 2 && Wrap(2 + (ADDRESS_LIMIT - 1)) == 1;
    assert Merge(inserted, 0).0 == [Node(0x10_0000, 1)];
    assert PagesToSize(2) == 0x2000;
  }

  /** A node at address zero is never canonical. */
  lemma FreeAtZeroIsNotCanonical(l: seq<Node>, n: nat)
    requires Canonical(l)
    ensures !Canonical(Insert(l, 0, n))
  {
    var k := FirstAbove(l, 0);
    assert k == 0;
    var inserted := [Node(0, n)] + l;
    assert l[..0] + [Node(0, n)] + l[0..] == inserted;
    assert Insert(l, 0, n)[0].base == 0;
  }

  // ----- Frees of no pages

  /** A free byte at or just below an aligned address sits in the node before that address. */
  lemma FreeBelowMeans(l: seq<Node>, start: nat)
    requires Canonical(l) && Aligned(start) && 0 < start
    ensures var k := FirstAbove(l, start);
            && (FreeAt(l, start) <==> k > 0 && start < l[k - 1].End())
            && (FreeAt(l, start) || FreeAt(l, start - 1) <==> k > 0 && start <= l[k - 1].End())
  {
    var k := FirstAbove(l, start);
    if k > 0 && start < l[k - 1].End() {
      assert Holds(l[k - 1], start);
    }
    if k > 0 && start == l[k - 1].End() {
      assert Holds(l[k - 1], start - 1);
    }
  }

  lemma RefusedAtTop(l: seq<Node>, start: nat, n: nat)
    requires Canonical(l) && Aligned(start) && 0 < start < ADDRESS_LIMIT
    requires Wrap(start + PagesToSize(n)) <= start
    ensures Refused(l, start, n) <==> FreeAt(l, start)
  {
    FreeBelowMeans(l, start);
    var k := FirstAbove(l, start);
    if k > 0 {
      assert PagesToSize(l[k - 1].pages) == PAGE_SIZE * l[k - 1].pages;
    }
  }

  /** An empty node that touches nothing stays in the list. */
  lemma InsertEmptyAlone(l: seq<Node>, start: nat)
    requires Canonical(l) && Aligned(start) && 0 < start < ADDRESS_LIMIT
    requires !FreeAt(l, start) && !FreeAt(l, start - 1)
    ensures !Canonical(Insert(l, start, 0))
  {
    hide Insert, FirstAbove, Merge, JoinDown, FreeAt;
    FreeBelowMeans(l, start);
    var k, empty := FirstAbove(l, start), Node(start, 0);
    InsertAfterJoinBelow(l, start, 0);
    JoinAboveSplices(l, k, k, empty);
    assert Splice(l, k, 0, [empty])[k] == empty;
  }

  /** An empty node disappears by joining the node that ends where it starts. */
  lemma InsertEmptyJoined(l: seq<Node>, start: nat)
    requires Canonical(l) && Aligned(start) && 0 < start < ADDRESS_LIMIT
    requires !FreeAt(l, start) && FreeAt(l, start - 1)
    ensures Insert(l, start, 0) == l
  {
    hide Insert, FirstAbove, FreeAt;
    FreeBelowMeans(l, start);
    JoinsNothing(l, FirstAbove(l, start), start);
    InsertAfterJoinBelow(l, start, 0);
  }

  /** The node that swallowed an empty one is as it was, and does not reach the node above. */
  lemma JoinsNothing(l: seq<Node>, k: nat, start: nat)
    requires Canonical(l) && 0 < k <= |l| && l[k - 1].End() == start
    ensures var joined := l[..k - 1] + [Node(l[k - 1].base, l[k - 1].pages + 0)] + l[k..];
            joined == l && (k < |l| ==> Merge(joined, k - 1).0 == l)
  {
    var joined := l[..k - 1] + [Node(l[k - 1].base, l[k - 1].pages + 0)] + l[k..];
    assert joined == l;
    if k < |l| {
      assert l[k - 1 + 1] == l[k];
      MergeTest(l[k - 1], l[k]);
    }
  }

  /** Freeing no pages is refused exactly inside free memory. */
  lemma EmptyFree(l: seq<Node>, memory: nat)
    requires Canonical(l) && Aligned(memory) && 0 < memory < ADDRESS_LIMIT
    ensures Refused(l, memory, 0) <==> FreeAt(l, memory)
    ensures FreeKeepsItsPromise(l, memory, 0) <==> FreeAt(l, memory) || FreeAt(l, memory - 1)
  {
    hide Insert, Refused;
    assert Wrap(memory + PagesToSize(0)) == memory;
    RefusedAtTop(l, memory, 0);
    if !FreeAt(l, memory) {
      if FreeAt(l, memory - 1) {
        InsertEmptyJoined(l, memory);
      } else {
        InsertEmptyAlone(l, memory);
      }
    }
    assert Adds(l, l, memory, 0);
  }

  /** For every address and page count: a free keeps its promise if and only if the range is proper, or
      one of the tests turns it away, or it is empty and ends a free node. */
  lemma FreeKeepsItsPromiseExactly(l: seq<Node>, memory: nat, n: nat)
    requires Canonical(l) && memory < ADDRESS_LIMIT && n < ADDRESS_LIMIT
    ensures FreeKeepsItsPromise(l, memory, n) <==>
              || ProperRange(memory, n)
              || !Aligned(memory)
              || Refused(l, memory, n)
              || (n == 0 && 0 < memory && FreeAt(l, memory - 1))
  {
    hide Insert, Refused, Canonical;
    if ProperRange(memory, n) {
      FreePagesIsExact(l, memory, n);
    } else if Aligned(memory) && !Refused(l, memory, n) {
      if memory == 0 {
        FreeAtZeroIsNotCanonical(l, n);
      } else if n == 0 {
        EmptyFree(l, memory);
      } else {
        WrappingFreeDamages(l, memory, n);
      }
    }
  }

  /** 2^52 pages have size 0 modulo 2^64: freeing them at 2 MB is accepted. */
  lemma WrappingFreeExample()
    ensures FreePages([], 0x20_0000, MAX_PAGES) == ([Node(0x20_0000, MAX_PAGES)], Success)
    ensures !FreeKeepsItsPromise([], 0x20_0000, MAX_PAGES)
  {
    assert FirstAbove([], 0x20_0000) == 0;
    assert Insert([], 0x20_0000, MAX_PAGES) == [Node(0x20_0000, MAX_PAGES)];
    assert !Refused([], 0x20_0000, MAX_PAGES);
    FreeKeepsItsPromiseExactly([], 0x20_0000, MAX_PAGES);
  }

  // ----- Requests for no pages

  /** The pages of a node below and above a cut, without empty nodes. */
  function Halves(p: Node, top: nat): seq<Node>
    requires top <= p.pages
  {
    (if top > 0 then [Node(p.base, top)] else [])
    + if top < p.pages then [Node(p.base + PAGE_SIZE * top, p.pages - top)] else []
  }

  lemma EmptyCutHalves(l: seq<Node>, i: nat, max: nat)
    requires Canonical(l) && i < |l| && max < ADDRESS_LIMIT
    ensures Top(l[i], max) <= l[i].pages
    ensures AllocOnNode(l, i, 0, max) ==
              (l[..i] + Halves(l[i], Top(l[i], max)) + l[i + 1..], l[i].base + PAGE_SIZE * Top(l[i], max))
  {
    hide Top;
    var p, top := l[i], Top(l[i], max);
    TopIsSmall(p, max);
    hide Canonical, ValidNode;
    var lower := if top > 0 then [Node(p.base, top)] else [];
    var upper := if top < p.pages then [Node(p.base + PAGE_SIZE * top, p.pages - top)] else [];
    assert l[..i] + lower + upper + l[i + 1..] == l[..i] + (lower + upper) + l[i + 1..];
  }

  /** Cutting nothing out of a node below a limit: the node is split in two at the limit. */
  lemma EmptyCut(l: seq<Node>, i: nat, max: nat)
    requires Canonical(l) && i < |l| && max < ADDRESS_LIMIT && l[i].base <= max + 1
    ensures var p, top := l[i], Top(l[i], max);
            var (l', r) := AllocOnNode(l, i, 0, max);
            && r == p.base + PAGE_SIZE * top <= p.End()
            && l' == if 0 < top < p.pages
                     then Splice(l, i, 1, [Node(p.base, top), Node(r, p.pages - top)]) else l
  {
    hide Top, AllocOnNode, Canonical;
    EmptyCutHalves(l, i, max);
    var p, top := l[i], Top(l[i], max);
    if top == 0 || top == p.pages {
      assert ValidNode(p) by {
        NodeIsValid(l, i);
      }
      assert Halves(p, top) == [p];
      assert l[..i] + [p] + l[i + 1..] == l;
    } else {
      assert Halves(p, top) == [Node(p.base, top), Node(p.base + PAGE_SIZE * top, p.pages - top)];
    }
  }

  lemma NodeIsValid(l: seq<Node>, i: nat)
    requires Canonical(l) && i < |l|
    ensures ValidNode(l[i])
  {
  }

  /** The arithmetic of such a cut does not wrap. */
  lemma TopIsSmall(p: Node, max: nat)
    requires ValidNode(p) && max < ADDRESS_LIMIT
    ensures var top := Top(p, max);
            && top <= p.pages && Wrap(top - 0) == top && PagesToSize(top) == PAGE_SIZE * top
            && Wrap(p.base + PagesToSize(top)) == p.base + PAGE_SIZE * top
    ensures Top(p, max) == var room := TruncateToPages(Wrap(max + 1 - p.base)); if room > p.pages then p.pages else room
  {
  }

  lemma SplitNode(l: seq<Node>, i: nat, top: nat)
    requires Canonical(l) && i < |l| && 0 < top < l[i].pages
    ensures var p := l[i];
            var l' := Splice(l, i, 1, [Node(p.base, top), Node(p.base + PAGE_SIZE * top, p.pages - top)]);
            !Canonical(l') && SameBytes(l, l')
  {
    var p := l[i];
    var two := [Node(p.base, top), Node(p.base + PAGE_SIZE * top, p.pages - top)];
    var l' := Splice(l, i, 1, two);
    assert l'[i] == two[0] && l'[i + 1] == two[1] && l'[i].End() == l'[i + 1].base;
    forall a ensures FreeAt(l, a) <==> FreeAt(l', a) {
      SpliceBytes(l, i, 1, two, a);
      assert l[i..i + 1] == [p];
      OneNodeBytes(l, i, a);
      assert FreeAt(two, a) == (Holds(two[0], a) || Holds(two[1], a));
    }
  }

  /** A request for no pages at or below a limit. It fails exactly when every free node starts more than
      a byte past the limit. Otherwise it is granted the address where the pages at or below the limit
      end, in the last such node; no byte changes hands, but the list stays canonical exactly when that
      address is not inside the node. */
  lemma RequestForNoPages(l: seq<Node>, max: nat)
    requires Canonical(l) && max < ADDRESS_LIMIT
    ensures var (l', r) := AllocBelow(l, 0, max);
            var i := LastAtOrBelow(l, max + 1);
            && (i < 0 ==> (l', r) == (l, ALL_ONES))
            && (i >= 0 ==>
                  && r == l[i].base + PAGE_SIZE * Top(l[i], max) <= l[i].End() && SameBytes(l, l')
                  && (Canonical(l') <==> r == l[i].base || r == l[i].End()))
            && (Canonical(l') ==> l' == l)
  {
    hide AllocOnNode, LastFit, LastAtOrBelow, Top, Splice;
    var i := LastFit(l, 0, max);
    forall j | 0 <= j < |l| ensures Fits(l[j], 0, max) <==> l[j].base <= max + 1 {
      assert ValidNode(l[j]) && PagesToSize(0) == 0;
    }
    assert i == LastAtOrBelow(l, max + 1);
    if i >= 0 {
      EmptyCut(l, i, max);
      if 0 < Top(l[i], max) < l[i].pages {
        SplitNode(l, i, Top(l[i], max));
      }
    }
  }

  /** The same at a given address: granted exactly at an aligned address inside a free node or at either
      end of one, and the list stays canonical exactly when the address is not strictly inside. */
  lemma RequestForNoPagesAt(l: seq<Node>, addr: nat)
    requires Canonical(l) && addr < ADDRESS_LIMIT
    ensures var (l', r) := AllocAt(l, 0, addr);
            var i := LastAtOrBelow(l, addr);
            && (r == addr <==> Aligned(addr) && i >= 0 && addr <= l[i].End())
            && SameBytes(l, l') && (Canonical(l') ==> l' == l)
            && (Canonical(l') <==> !(r == addr && l[i].base < addr < l[i].End()))
  {
    hide AllocOnNode, LastAtOrBelow, Top, Splice;
    var i := LastAtOrBelow(l, addr);
    assert PagesToSize(0) == 0;
    if Aligned(addr) && i >= 0 {
      assert PagesToSize(l[i].pages) == PAGE_SIZE * l[i].pages;
      if addr <= l[i].End() {
        TopAtEnd(l[i], addr);
        EmptyCut(l, i, addr);
        if 0 < Top(l[i], addr) < l[i].pages {
          SplitNode(l, i, Top(l[i], addr));
        }
      }
    }
  }

  /** Two free pages at 1 MB; a request for no pages below the middle of them cuts them apart. */
  lemma RequestForNoPagesExample()
    ensures var l := [Node(0x10_0000, 2)];
            AllocBelow(l, 0, 0x10_0fff) == ([Node(0x10_0000, 1), Node(0x10_1000, 1)], 0x10_1000)
  {
    var l := [Node(0x10_0000, 2)];
    assert PagesToSize(0) == 0 && LastFit(l, 0, 0x10_0fff) == 0;
    EmptyCut(l, 0, 0x10_0fff);
    assert Top(l[0], 0x10_0fff) == 1 by {
      assert Wrap(0x1000) == 0x1000;
    }
    hide AllocOnNode, Top;
    var two := [Node(0x10_0000, 1), Node(0x10_1000, 1)];
    assert AllocOnNode(l, 0, 0, 0x10_0fff) == (Splice(l, 0, 1, two), 0x10_1000);
    assert Splice(l, 0, 1, two) == two;
  }
}
