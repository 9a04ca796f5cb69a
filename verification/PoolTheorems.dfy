/** What taking a block from the pool does to the memory it manages, byte by byte. */
module PoolTheorems {
  import opened Pages
  import opened PageTheorems
  import opened AlignedPages
  import opened Powers
  import opened Pool

  // ----- Counting who holds a byte

  function Bit(c: bool): nat {
    if c then 1 else 0
  }

  predicate Covers(b: nat, size: nat, a: int) {
    b <= a < b + size
  }

  /** How many blocks of one list contain byte `a`. */
  function Hits(bs: seq<nat>, size: nat, a: int): nat {
    if bs == [] then 0 else Bit(Covers(bs[0], size, a)) + Hits(bs[1..], size, a)
  }

  /** How many blocks of the first `k` classes contain byte `a`. */
  function Total(pools: seq<seq<nat>>, k: nat, a: int): nat
    requires k <= |pools|
  {
    if k == 0 then 0 else Total(pools, k - 1, a) + Hits(pools[k - 1], BlockSize(k - 1), a)
  }

  ghost function FreeBit(l: seq<Node>, a: int): nat {
    Bit(FreeAt(l, a))
  }

  lemma {:induction false} HitsMember(bs: seq<nat>, size: nat, j: nat, a: int)
    requires j < |bs| && Covers(bs[j], size, a)
    ensures Hits(bs, size, a) >= 1
  {
    if j > 0 {
      HitsMember(bs[1..], size, j - 1, a);
    }
  }

  lemma {:induction false} HitsRemove(bs: seq<nat>, size: nat, j: nat, a: int)
    requires j < |bs|
    ensures Hits(bs, size, a) == Bit(Covers(bs[j], size, a)) + Hits(bs[..j] + bs[j + 1..], size, a)
  {
    var rest := bs[..j] + bs[j + 1..];
    if j == 0 {
      assert rest == bs[1..];
    } else {
      HitsRemove(bs[1..], size, j - 1, a);
      assert rest[1..] == bs[1..][..j - 1] + bs[1..][j..];
    }
  }

  lemma {:induction false} TotalSame(pools: seq<seq<nat>>, k: nat, i: nat, xs: seq<nat>, a: int)
    requires k <= i < |pools|
    ensures Total(pools[i := xs], k, a) == Total(pools, k, a)
  {
    if k > 0 {
      TotalSame(pools, k - 1, i, xs, a);
    }
  }

  lemma {:induction false} TotalUpdate(pools: seq<seq<nat>>, k: nat, i: nat, xs: seq<nat>, a: int)
    requires i < k <= |pools|
    ensures Total(pools[i := xs], k, a) + Hits(pools[i], BlockSize(i), a)
            == Total(pools, k, a) + Hits(xs, BlockSize(i), a)
  {
    if i == k - 1 {
      TotalSame(pools, k - 1, i, xs, a);
    } else {
      TotalUpdate(pools, k - 1, i, xs, a);
    }
  }

  lemma {:induction false} TotalMember(pools: seq<seq<nat>>, k: nat, i: nat, j: nat, a: int)
    requires i < k <= |pools| && j < |pools[i]| && Covers(pools[i][j], BlockSize(i), a)
    ensures Total(pools, k, a) >= 1
  {
    if i == k - 1 {
      HitsMember(pools[i], BlockSize(i), j, a);
    } else {
      TotalMember(pools, k - 1, i, j, a);
    }
  }

  lemma BlockHoldsItsBase(pools: seq<seq<nat>>, i: nat, j: nat)
    requires i < |pools| && j < |pools[i]|
    ensures Total(pools, |pools|, pools[i][j]) >= 1
  {
    BlockSizes(i);
    TotalMember(pools, |pools|, i, j, pools[i][j]);
  }

  // ----- The state of the pool

  ghost predicate Sized(pools: seq<seq<nat>>) {
    && |pools| == CLASSES
    && forall i, j :: 0 <= i < |pools| && 0 <= j < |pools[i]| ==>
         0 < pools[i][j] && pools[i][j] % BlockSize(i) == 0
  }

  ghost predicate Tagged(pools: seq<seq<nat>>, headers: map<nat, Header>, available: bool) {
    forall i, j :: 0 <= i < |pools| && 0 <= j < |pools[i]| ==>
      pools[i][j] in headers && headers[pools[i][j]] == Header(BlockSize(i), available)
  }

  ghost predicate Sound(h: Heap) {
    && Canonical(h.nodes) && Sized(h.pools) && Tagged(h.pools, h.headers, true)
    && forall a :: Total(h.pools, CLASSES, a) + FreeBit(h.nodes, a) <= 1
  }

  /** The taken block and what is left make up exactly what was there before. */
  ghost predicate Conserves(h: Heap, h': Heap, b: nat, size: nat)
    requires |h.pools| == |h'.pools| == CLASSES
  {
    forall a :: Total(h'.pools, CLASSES, a) + Bit(Covers(b, size, a)) + FreeBit(h'.nodes, a)
             == Total(h.pools, CLASSES, a) + FreeBit(h.nodes, a)
  }

  /** Headers of memory that was neither pooled nor free are untouched. */
  ghost predicate KeepsOtherHeaders(h: Heap, h': Heap)
    requires |h.pools| == CLASSES
  {
    forall x :: x in h.headers && Total(h.pools, CLASSES, x) == 0 && !FreeAt(h.nodes, x) ==>
      x in h'.headers && h'.headers[x] == h.headers[x]
  }

  ghost predicate TakenWell(h: Heap, i: nat, t: Taken)
    requires |h.pools| == CLASSES
  {
    && Canonical(t.heap.nodes) && Sized(t.heap.pools)
    && 0 < t.block && t.block % BlockSize(i) == 0
    && Conserves(h, t.heap, t.block, BlockSize(i))
    && Tagged(t.heap.pools, t.heap.headers, true)
    && KeepsOtherHeaders(h, t.heap)
  }

  // ----- A header write leaves the headers of all other blocks alone

  lemma TaggedAfterWrite(pools: seq<seq<nat>>, headers: map<nat, Header>, x: nat, hdr: Header, available: bool)
    requires Tagged(pools, headers, available) && Total(pools, |pools|, x) == 0
    ensures Tagged(pools, headers[x := hdr], available)
  {
    forall i, j | 0 <= i < |pools| && 0 <= j < |pools[i]| ensures pools[i][j] != x {
      BlockHoldsItsBase(pools, i, j);
    }
  }

  // ----- Taking a whole page

  lemma PageIsTakenWell(h: Heap)
    requires Sound(h) && AllocIndex(h, CLASSES).Some?
    ensures TakenWell(h, CLASSES, AllocIndex(h, CLASSES).value)
  {
    hide AllocatePages;
    var o := AllocatePages(h.nodes, AnyPages, RuntimeServicesData, 1, 0);
    AllocatePagesMeaning(h.nodes, AnyPages, RuntimeServicesData, 1, 0);
    BlockSizes(0);
    var b := o.memory;
    assert InRange(b, b, 1) && FreeAt(h.nodes, b);
    TaggedAfterWrite(h.pools, h.headers, b, Header(PAGE_SIZE, false), true);
    forall a
      ensures Bit(Covers(b, PAGE_SIZE, a)) + FreeBit(o.nodes, a) == FreeBit(h.nodes, a)
    {
      assert Covers(b, PAGE_SIZE, a) == InRange(a, b, 1);
    }
  }

  // ----- Taking the first block of a list

  lemma HeadIsTakenWell(h: Heap, i: nat)
    requires Sound(h) && i < CLASSES && h.pools[i] != []
    ensures TakenWell(h, i, AllocIndex(h, i).value)
  {
    var b, rest := h.pools[i][0], h.pools[i][1..];
    var pools' := h.pools[i := rest];
    forall a
      ensures Total(pools', CLASSES, a) + Bit(Covers(b, BlockSize(i), a)) == Total(h.pools, CLASSES, a)
    {
      TotalUpdate(h.pools, CLASSES, i, rest, a);
    }
    BlockSizes(i);
    assert Covers(b, BlockSize(i), b);
    assert h.pools[i][0] == b;
    BlockHoldsItsBase(h.pools, i, 0);
    HeadSized(h.pools, i, h.headers);
    TaggedAfterWrite(pools', h.headers, b, Header(BlockSize(i), false), true);
  }

  lemma HeadSized(pools: seq<seq<nat>>, i: nat, headers: map<nat, Header>)
    requires Sized(pools) && Tagged(pools, headers, true) && i < CLASSES && pools[i] != []
    ensures Sized(pools[i := pools[i][1..]]) && Tagged(pools[i := pools[i][1..]], headers, true)
  {
    var pools' := pools[i := pools[i][1..]];
    forall k, j | 0 <= k < |pools'| && 0 <= j < |pools'[k]|
      ensures pools'[k][j] == pools[k][if k == i then j + 1 else j]
    {
    }
  }

  // ----- Splitting a block

  lemma HalvesAreAligned(b: nat, i: nat)
    requires b % BlockSize(i + 1) == 0
    ensures b % BlockSize(i) == 0 && (b + BlockSize(i)) % BlockSize(i) == 0
  {
    BlockSizes(i);
    var s := BlockSize(i);
    MultipleTrans(b, s, 2);
    MultipleOf(1, s);
    MultipleSum(b, s, s);
  }

  lemma SplitConserves(h: Heap, i: nat, t: Taken)
    requires |h.pools| == |t.heap.pools| == CLASSES && i < CLASSES
    requires t.block in t.heap.headers && t.heap.headers[t.block].size == BlockSize(i + 1)
    requires Conserves(h, t.heap, t.block, BlockSize(i + 1))
    ensures var u := SplitOff(t.heap, i, t.block);
            Conserves(h, u.heap, u.block, BlockSize(i))
  {
    BlockSizes(i);
    var u := SplitOff(t.heap, i, t.block);
    forall a
      ensures Total(u.heap.pools, CLASSES, a) + Bit(Covers(u.block, BlockSize(i), a))
           == Total(t.heap.pools, CLASSES, a) + Bit(Covers(t.block, BlockSize(i + 1), a))
    {
      TotalUpdate(t.heap.pools, CLASSES, i, u.heap.pools[i], a);
      assert u.heap.pools[i][1..] == t.heap.pools[i];
    }
  }

  lemma AddedSized(pools: seq<seq<nat>>, i: nat, b: nat)
    requires Sized(pools) && i < CLASSES && 0 < b && b % BlockSize(i) == 0
    ensures Sized(pools[i := [b] + pools[i]])
  {
    var pools' := pools[i := [b] + pools[i]];
    forall k, j | 0 <= k < |pools'| && 0 <= j < |pools'[k]|
      ensures 0 < pools'[k][j] && pools'[k][j] % BlockSize(k) == 0
    {
      if k == i {
        assert j > 0 ==> pools'[k][j] == pools[k][j - 1];
      } else {
        assert pools'[k][j] == pools[k][j];
      }
    }
  }

  lemma AddedTagged(pools: seq<seq<nat>>, i: nat, b: nat, headers: map<nat, Header>, available: bool)
    requires Tagged(pools, headers, available) && i < |pools|
    requires b in headers && headers[b] == Header(BlockSize(i), available)
    ensures Tagged(pools[i := [b] + pools[i]], headers, available)
  {
    var pools' := pools[i := [b] + pools[i]];
    forall k, j | 0 <= k < |pools'| && 0 <= j < |pools'[k]|
      ensures pools'[k][j] in headers && headers[pools'[k][j]] == Header(BlockSize(k), available)
    {
      if k == i {
        assert j > 0 ==> pools'[k][j] == pools[k][j - 1];
      } else {
        assert pools'[k][j] == pools[k][j];
      }
    }
  }

  /** A byte of the taken block is in no list any more. */
  lemma TakenBytesAreGone(h: Heap, i: nat, t: Taken, a: int)
    requires Sound(h) && TakenWell(h, i, t) && Covers(t.block, BlockSize(i), a)
    ensures Total(t.heap.pools, CLASSES, a) == 0
    ensures Total(h.pools, CLASSES, a) + FreeBit(h.nodes, a) == 1
  {
  }

  lemma SplitTags(h: Heap, i: nat, t: Taken)
    requires Sound(h) && i < CLASSES && TakenWell(h, i + 1, t)
    requires t.block in t.heap.headers && t.heap.headers[t.block].size == BlockSize(i + 1)
    ensures var u := SplitOff(t.heap, i, t.block);
            Tagged(u.heap.pools, u.heap.headers, true) && KeepsOtherHeaders(h, u.heap)
  {
    BlockSizes(i);
    hide BlockSize;
    var b, s := t.block, BlockSize(i);
    TakenBytesAreGone(h, i + 1, t, b);
    TakenBytesAreGone(h, i + 1, t, b + s);
    var lower, upper := Header(s, true), Header(s, false);
    TaggedAfterWrite(t.heap.pools, t.heap.headers, b, lower, true);
    TaggedAfterWrite(t.heap.pools, t.heap.headers[b := lower], b + s, upper, true);
    AddedTagged(t.heap.pools, i, b, t.heap.headers[b := lower][b + s := upper], true);
  }

  lemma SplitIsTakenWell(h: Heap, i: nat, t: Taken)
    requires Sound(h) && i < CLASSES && TakenWell(h, i + 1, t)
    requires t.block in t.heap.headers && t.heap.headers[t.block].size == BlockSize(i + 1)
    ensures TakenWell(h, i, SplitOff(t.heap, i, t.block))
  {
    BlockSizes(i);
    HalvesAreAligned(t.block, i);
    SplitConserves(h, i, t);
    AddedSized(t.heap.pools, i, t.block);
    SplitTags(h, i, t);
  }

  /** Taking a block of any class from any sound heap conserves every byte, keeps every list sized,
      aligned and tagged, and touches no other header. */
  lemma {:induction false} AllocIndexIsTakenWell(h: Heap, i: nat)
    requires Sound(h) && i <= CLASSES && AllocIndex(h, i).Some?
    ensures TakenWell(h, i, AllocIndex(h, i).value)
    decreases CLASSES - i
  {
    if i == CLASSES {
      PageIsTakenWell(h);
    } else if h.pools[i] != [] {
      HeadIsTakenWell(h, i);
    } else {
      AllocIndexIsTakenWell(h, i + 1);
      SplitIsTakenWell(h, i, AllocIndex(h, i + 1).value);
    }
  }

  // ----- Which block is split

  /** The first non-empty class from `i` on; `CLASSES` stands for the page list. */
  function Source(h: Heap, i: nat): (j: nat)
    requires i <= CLASSES == |h.pools|
    ensures i <= j <= CLASSES && (forall k :: i <= k < j ==> h.pools[k] == [])
    ensures j < CLASSES ==> h.pools[j] != []
    decreases CLASSES - i
  {
    if i == CLASSES || h.pools[i] != [] then i else Source(h, i + 1)
  }

  function NewPage(h: Heap): Outcome {
    AllocatePages(h.nodes, AnyPages, RuntimeServicesData, 1, 0)
  }

  /** The block that gets split. */
  function SourceBlock(h: Heap, i: nat): nat
    requires i <= CLASSES == |h.pools|
  {
    var j := Source(h, i);
    if j < CLASSES then h.pools[j][0] else NewPage(h).memory
  }

  /** What list `k` holds after a block of class `i` was split off the block at `b0` of class `j`. */
  function SplitList(h: Heap, i: nat, j: nat, b0: nat, k: nat): seq<nat>
    requires i <= j <= CLASSES == |h.pools| && k < CLASSES
    requires j < CLASSES ==> h.pools[j] != []
  {
    if k < i || k > j then h.pools[k]
    else if k == j then h.pools[k][1..]
    else BlockSizeMonotone(k + 1, j); [b0 + BlockSize(j) - BlockSize(k + 1)]
  }

  ghost predicate SplitsTo(h: Heap, i: nat, j: nat, b0: nat, t: Taken)
    requires i <= j <= CLASSES == |h.pools| && (j < CLASSES ==> h.pools[j] != [])
  {
    && |t.heap.pools| == CLASSES && t.block + BlockSize(i) == b0 + BlockSize(j)
    && forall k :: 0 <= k < CLASSES ==> t.heap.pools[k] == SplitList(h, i, j, b0, k)
  }

  lemma SplitOffSplitsTo(h: Heap, i: nat, j: nat, b0: nat, t: Taken)
    requires i < j <= CLASSES == |h.pools| && (j < CLASSES ==> h.pools[j] != []) && h.pools[i] == []
    requires SplitsTo(h, i + 1, j, b0, t)
    requires t.block in t.heap.headers && t.heap.headers[t.block].size == BlockSize(i + 1)
    ensures SplitsTo(h, i, j, b0, SplitOff(t.heap, i, t.block))
  {
    BlockSizes(i);
    hide BlockSize;
    var u := SplitOff(t.heap, i, t.block);
    assert t.heap.pools[i] == SplitList(h, i + 1, j, b0, i) == [];
    forall k | 0 <= k < CLASSES ensures u.heap.pools[k] == SplitList(h, i, j, b0, k) {
      if k == i {
        assert u.heap.pools[k] == [t.block] + [] == [t.block];
      } else {
        assert u.heap.pools[k] == t.heap.pools[k] == SplitList(h, i + 1, j, b0, k);
      }
    }
  }

  /** An allocation splits the smallest non-empty class: it hands out the top end of that class's
      first block, each class in between keeps the one buddy left over, and nothing else moves.
      It fails exactly when every class from `i` on is empty and no page is free. */
  lemma {:induction false} SplitsSmallestClass(h: Heap, i: nat)
    requires i <= CLASSES == |h.pools|
    ensures var j, r := Source(h, i), AllocIndex(h, i);
            && (r.None? <==> j == CLASSES && NewPage(h).status != Success)
            && (r.Some? ==>
                  && SplitsTo(h, i, j, SourceBlock(h, i), r.value)
                  && r.value.heap.nodes == if j == CLASSES then NewPage(h).nodes else h.nodes)
    decreases CLASSES - i
  {
    hide AllocatePages, BlockSize;
    if i < CLASSES && h.pools[i] == [] {
      SplitsSmallestClass(h, i + 1);
      if AllocIndex(h, i).Some? {
        SplitOffSplitsTo(h, i, Source(h, i), SourceBlock(h, i), AllocIndex(h, i + 1).value);
      }
    }
  }

  // ----- What the caller gets

  /** A size that is served from the lists: the block is the smallest power of two from 64 to 2048 bytes
      that holds it. */
  predicate SmallFit(block: nat, total: nat) {
    && (block == 64 || block == 128 || block == 256 || block == 512 || block == 1024 || block == 2048)
    && total <= block && (block == 64 || block < 2 * total)
  }

  /** A larger size: the least number of whole pages. */
  predicate LargeFit(block: nat, total: nat) {
    block % 4096 == 0 && total <= block < total + 4096
  }

  /** The block behind a granted buffer is gone from the heap, byte for byte, and nothing else is; the lists
      stay sized and tagged, the block's header marks it in use, and no header elsewhere changes. Pages
      come from the highest run there is. */
  ghost predicate Granted(h: Heap, h': Heap, buffer: nat, total: nat)
    requires |h.pools| == CLASSES
  {
    && buffer >= 24 && buffer - 24 in h'.headers && !h'.headers[buffer - 24].available
    && var b, size := buffer - 24, h'.headers[buffer - 24].size;
       && (if total <= 2048 then SmallFit(size, total) && b % size == 0
           else LargeFit(size, total) && Highest(h.nodes, b, size / 4096, 0xFFFF_FFFF_FFFF_FFFF))
       && 0 < b && Canonical(h'.nodes) && Sized(h'.pools) && Tagged(h'.pools, h'.headers, true)
       && Conserves(h, h', b, size) && KeepsOtherHeaders(h, h')
  }

  /** A list of blocks large enough is not empty, or a page is free. */
  ghost predicate BlockToBeHad(h: Heap, total: nat)
    requires |h.pools| == CLASSES
  {
    (exists i :: 0 <= i < CLASSES && BlockSize(i) >= total && h.pools[i] != [])
    || exists y :: Candidate(h.nodes, y, 1, 0xFFFF_FFFF_FFFF_FFFF)
  }

  /** A run of the least number of whole pages is free. */
  ghost predicate PagesToBeHad(h: Heap, total: nat) {
    exists n: nat, y :: LargeFit(4096 * n, total) && Candidate(h.nodes, y, n, 0xFFFF_FFFF_FFFF_FFFF)
  }

  lemma SmallestClassFits(i: nat, total: nat)
    requires 0 < total <= MAX_POOL_SIZE && IsSmallestClass(i, total)
    ensures i < CLASSES && SmallFit(BlockSize(i), total)
  {
    assert Pow2(1) == 2 && Pow2(2) == 4 && Pow2(3) == 8 && Pow2(4) == 16 && Pow2(5) == 32;
    BlockSizes(5);
    if i > 0 {
      BlockSizes(i - 1);
    }
  }

  lemma SmallestClassIsLargeEnough(h: Heap, i: nat, total: nat)
    requires |h.pools| == CLASSES && i < CLASSES && IsSmallestClass(i, total)
    ensures Source(h, i) < CLASSES <==> exists k :: 0 <= k < CLASSES && BlockSize(k) >= total && h.pools[k] != []
  {
    hide BlockSize;
    var j := Source(h, i);
    if j < CLASSES {
      BlockSizeMonotone(i, j);
    }
  }

  lemma SmallRequest(h: Heap, m: MemoryType, size: nat, total: nat)
    requires Sound(h) && size < ADDRESS_LIMIT && total == Wrap(size + HEADER_SIZE) && 0 < total <= MAX_POOL_SIZE
    requires m != OtherMemory
    ensures var o := AllocatePool(h, m, size);
            && (o.status == Success <==> BlockToBeHad(h, total))
            && (o.status == Success ==> Granted(h, o.heap, o.buffer, total))
            && (o.status != Success ==> o.status == OutOfResources && o.heap == h && o.buffer == 0)
  {
    hide AllocIndex, BlockSize, AllocatePages, Conserves, Tagged, Sized, Canonical, KeepsOtherHeaders;
    SoundHasClasses(h);
    PoolIndexIsSmallest(total);
    var i := PoolIndex(total);
    SmallestClassFits(i, total);
    SmallestClassIsLargeEnough(h, i, total);
    SplitsSmallestClass(h, i);
    NewPageMeans(h);
    if AllocIndex(h, i).Some? {
      AllocIndexIsTakenWell(h, i);
    }
  }

  lemma NewPageMeans(h: Heap)
    requires Sound(h)
    ensures NewPage(h).status == Success <==> exists y :: Candidate(h.nodes, y, 1, 0xFFFF_FFFF_FFFF_FFFF)
  {
    AllocatePagesMeaning(h.nodes, AnyPages, RuntimeServicesData, 1, 0);
  }

  lemma PagesForSize(total: nat, n: nat)
    ensures LargeFit(4096 * n, total) <==> n == SizeToPages(total)
  {
  }

  /** Pages leave the list, and a header is written at their start. */
  lemma LargeGrant(h: Heap, l: seq<Node>, b: nat, n: nat)
    requires Sound(h) && n >= 1 && Aligned(b) && 0 < b && Canonical(l)
    requires AllFree(h.nodes, b, n) && Removes(h.nodes, l, b, n)
    ensures var h' := Heap(l, h.pools, h.headers[b := Header(PAGE_SIZE * n, false)]);
            Conserves(h, h', b, PAGE_SIZE * n) && Tagged(h'.pools, h'.headers, true) && KeepsOtherHeaders(h, h')
  {
    assert InRange(b, b, n) && FreeAt(h.nodes, b);
    TaggedAfterWrite(h.pools, h.headers, b, Header(PAGE_SIZE * n, false), true);
    forall a ensures Bit(Covers(b, PAGE_SIZE * n, a)) + FreeBit(l, a) == FreeBit(h.nodes, a) {
      assert Covers(b, PAGE_SIZE * n, a) == InRange(a, b, n);
    }
  }

  lemma LargeRequest(h: Heap, m: MemoryType, size: nat, total: nat)
    requires Sound(h) && size < ADDRESS_LIMIT && total == Wrap(size + HEADER_SIZE) && MAX_POOL_SIZE < total
    requires m != OtherMemory
    ensures var o := AllocatePool(h, m, size);
            && (o.status == Success <==> PagesToBeHad(h, total))
            && (o.status == Success ==> Granted(h, o.heap, o.buffer, total))
            && (o.status != Success ==> o.status == OutOfResources && o.heap == h && o.buffer == 0)
  {
    hide AllocatePages, Conserves, Tagged, Sized, Canonical, KeepsOtherHeaders;
    var n := SizeToPages(total);
    PagesForSize(total, n);
    var o := AllocatePages(h.nodes, AnyPages, m, n, 0);
    AllocatePagesMeaning(h.nodes, AnyPages, m, n, 0);
    if o.status == Success {
      LargeGrant(h, o.nodes, o.memory, n);
      assert Candidate(h.nodes, o.memory, n, 0xFFFF_FFFF_FFFF_FFFF);
    }
    if PagesToBeHad(h, total) {
      var k: nat, y :| LargeFit(4096 * k, total) && Candidate(h.nodes, y, k, 0xFFFF_FFFF_FFFF_FFFF);
      PagesForSize(total, k);
    }
  }

  /** A pool request, header included and modulo 2^64, of any size from any sound heap: refused for another
      memory type; granted exactly when a block or a run of pages is to be had; what is granted leaves the
      heap, and a refusal changes nothing. */
  lemma AllocatePoolIsExact(h: Heap, m: MemoryType, size: nat)
    requires Sound(h) && size < ADDRESS_LIMIT && size + HEADER_SIZE != ADDRESS_LIMIT
    ensures var o := AllocatePool(h, m, size);
            var total := if size + 24 < ADDRESS_LIMIT then size + 24 else size + 24 - ADDRESS_LIMIT;
            && (m == OtherMemory ==> o == PoolOutcome(h, 0, InvalidParameter))
            && (m != OtherMemory ==>
                  && (o.status == Success <==> if total <= 2048 then BlockToBeHad(h, total) else PagesToBeHad(h, total))
                  && (o.status == Success ==> Granted(h, o.heap, o.buffer, total))
                  && (o.status != Success ==> o == PoolOutcome(h, 0, OutOfResources)))
  {
    hide AllocIndex, AllocatePages, Granted, BlockToBeHad, PagesToBeHad, Sound;
    assert |h.pools| == CLASSES by {
      SoundHasClasses(h);
    }
    var total := Wrap(size + HEADER_SIZE);
    if m != OtherMemory {
      hide AllocatePool;
      if total <= MAX_POOL_SIZE {
        SmallRequest(h, m, size, total);
      } else {
        LargeRequest(h, m, size, total);
      }
    }
  }

  /** Which block a small request gets: the top end of the first block of the smallest class that has one,
      from the smallest class that holds the request up. */
  lemma SmallRequestSplitsSmallest(h: Heap, m: MemoryType, size: nat)
    requires |h.pools| == CLASSES && size + 24 <= 2048 && AllocatePool(h, m, size).status == Success
    ensures var o := AllocatePool(h, m, size);
            && o.buffer >= 24
            && exists i :: 0 <= i < CLASSES && IsSmallestClass(i, size + 24) &&
                           SplitsTo(h, i, Source(h, i), SourceBlock(h, i), Taken(o.heap, o.buffer - 24))
  {
    hide AllocIndex, BlockSize, AllocatePages, SplitsTo;
    assert Wrap(size + HEADER_SIZE) == size + 24;
    PoolIndexIsSmallest(size + 24);
    var i := PoolIndex(size + 24);
    SplitsSmallestClass(h, i);
    var o, t := AllocatePool(h, m, size), AllocIndex(h, i).value;
    assert Taken(o.heap, o.buffer - 24) == t;
  }

  lemma SoundHasClasses(h: Heap)
    requires Sound(h)
    ensures |h.pools| == CLASSES
  {
  }

  /** The block behind a granted buffer holds the request and its header exactly when adding the
      header size to the request did not wrap. */
  lemma GrantedBlockHoldsRequest(h: Heap, m: MemoryType, size: nat)
    requires |h.pools| == CLASSES && size < ADDRESS_LIMIT && size + HEADER_SIZE != ADDRESS_LIMIT
    ensures var o := AllocatePool(h, m, size);
            o.status == Success ==>
              && o.buffer >= HEADER_SIZE && o.buffer - HEADER_SIZE in o.heap.headers
              && (o.heap.headers[o.buffer - HEADER_SIZE].size >= size + HEADER_SIZE <==>
                    size + HEADER_SIZE < ADDRESS_LIMIT)
  {
    hide AllocatePages, AllocIndex;
    var total := Wrap(size + HEADER_SIZE);
    if total <= MAX_POOL_SIZE {
      PoolIndexIsSmallest(total);
      BlockSizeMonotone(PoolIndex(total), 5);
      BlockSizes(5);
    } else {
      assert PAGE_SIZE * SizeToPages(total) >= total;
    }
  }

  /** The ASSERTs on the free path, spelled out: a header that is in use; pages for pages, or a block of 64 to
      2048 bytes, a power of two, at a multiple of its size. */
  lemma FreeAssertsExactly(h: Heap, block: nat)
    ensures FreeAssertsHold(h, block) <==>
              && block in h.headers && !h.headers[block].available
              && var size := h.headers[block].size;
                 if size > 2048 then block % 4096 == 0 && size % 4096 == 0
                 else
                   && (size == 64 || size == 128 || size == 256 || size == 512 || size == 1024 || size == 2048)
                   && block % size == 0
  {
    if block in h.headers && 64 <= h.headers[block].size <= 2048 {
      var size := h.headers[block].size;
      SixPowers();
      if IsPowerOfTwo(size) {
        ClassOfSize(size);
        var i := FreeIndex(size);
        BlockSizes(0);
        if i >= 6 {
          BlockSizeMonotone(6, i);
        }
        assert i == 0 || i == 1 || i == 2 || i == 3 || i == 4 || i == 5;
      }
    }
  }

  lemma SixPowers()
    ensures BlockSize(0) == 64 && BlockSize(1) == 128 && BlockSize(2) == 256
    ensures BlockSize(3) == 512 && BlockSize(4) == 1024 && BlockSize(5) == 2048
    ensures forall i :: 0 <= i < 6 ==> IsPowerOfTwo(BlockSize(i)) && FreeIndex(BlockSize(i)) == i
  {
    assert Pow2(1) == 2 && Pow2(2) == 4 && Pow2(3) == 8 && Pow2(4) == 16 && Pow2(5) == 32;
    forall i: nat | i < 6 ensures IsPowerOfTwo(BlockSize(i)) && FreeIndex(BlockSize(i)) == i {
      SizeOfClass(i);
    }
  }

  /** A request of 2^64 - 23 bytes is granted a 64-byte block. */
  lemma WrappedRequestExample(h: Heap)
    requires |h.pools| == CLASSES && h.pools[0] != []
    ensures var o := AllocatePool(h, RuntimeServicesData, ADDRESS_LIMIT - 23);
            && o.status == Success && o.buffer == h.pools[0][0] + HEADER_SIZE
            && o.heap.headers[h.pools[0][0]].size == 64
  {
    assert Wrap(ADDRESS_LIMIT - 23 + HEADER_SIZE) == 1;
    assert HighBitSet(1) == 0 && Pow2(0) == 1;
    assert PoolIndex(1) == 0;
  }
}
