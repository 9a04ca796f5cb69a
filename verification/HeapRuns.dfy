/** The allocator and everything its clients hold, over whole runs. */
module HeapRuns {
  import opened Pages
  import opened PageTheorems
  import opened AlignedPages
  import opened Powers
  import opened Pool
  import opened PoolTheorems

  /** The heap, together with a ledger of who holds what: the pool blocks in use by class, the page
      runs in use, the pool buffers large enough to be page runs, and the pages the pool has taken. */
  datatype World = World(heap: Heap, busy: seq<seq<nat>>, runs: seq<Node>, bulk: seq<Node>, owned: set<int>)

  // ----- Counting page runs

  function RunHits(rs: seq<Node>, a: int): nat {
    if rs == [] then 0 else Bit(Holds(rs[0], a)) + RunHits(rs[1..], a)
  }

  lemma {:induction false} RunHitsConcat(xs: seq<Node>, ys: seq<Node>, a: int)
    ensures RunHits(xs + ys, a) == RunHits(xs, a) + RunHits(ys, a)
  {
    if xs == [] {
      assert xs + ys == ys;
    } else {
      RunHitsConcat(xs[1..], ys, a);
      assert (xs + ys)[1..] == xs[1..] + ys;
    }
  }

  lemma RunHitsSplit(rs: seq<Node>, k: nat, a: int)
    requires k < |rs|
    ensures RunHits(rs, a) == RunHits(rs[..k], a) + Bit(Holds(rs[k], a)) + RunHits(rs[k + 1..], a)
  {
    assert rs == rs[..k] + rs[k..];
    RunHitsConcat(rs[..k], rs[k..], a);
    assert rs[k..][1..] == rs[k + 1..];
  }

  lemma RunHitsAppend(rs: seq<Node>, p: Node, a: int)
    ensures RunHits(rs + [p], a) == RunHits(rs, a) + Bit(Holds(p, a))
  {
    RunHitsConcat(rs, [p], a);
    assert [p][1..] == [];
  }

  /** In a canonical list every byte is counted once or not at all. */
  lemma {:induction false} RunHitsCanonical(l: seq<Node>, a: int)
    requires Canonical(l)
    ensures RunHits(l, a) == FreeBit(l, a)
  {
    if l != [] {
      TailBytes(l, a);
      RunHitsCanonical(l[1..], a);
      if Holds(l[0], a) {
        assert FreeAt(l, a);
      }
    }
  }

  // ----- The invariant

  function PageOf(a: int): int {
    a - a % PAGE_SIZE
  }

  ghost function OwnedBit(owned: set<int>, a: int): nat {
    Bit(PageOf(a) in owned)
  }

  ghost predicate ValidRuns(rs: seq<Node>) {
    forall j :: 0 <= j < |rs| ==> ValidNode(rs[j])
  }

  ghost predicate BulkTagged(bulk: seq<Node>, headers: map<nat, Header>) {
    forall j :: 0 <= j < |bulk| ==>
      bulk[j].base in headers && headers[bulk[j].base] == Header(PAGE_SIZE * bulk[j].pages, false)
  }

  /** Every byte of a pool-owned page is in exactly one pool block, free or in use, and no other
      byte is in any. */
  ghost predicate PoolTiles(w: World)
    requires |w.heap.pools| == |w.busy| == CLASSES
  {
    forall a :: Total(w.heap.pools, CLASSES, a) + Total(w.busy, CLASSES, a) == OwnedBit(w.owned, a)
  }

  /** Every byte of the region has exactly one holder: the free list, a page run, a large buffer
      or the pool; a byte outside the region has none. */
  ghost predicate RegionTiles(region: seq<Node>, w: World) {
    forall a ::
      FreeBit(w.heap.nodes, a) + RunHits(w.runs, a) + RunHits(w.bulk, a) + OwnedBit(w.owned, a) == FreeBit(region, a)
  }

  ghost predicate Shaped(w: World) {
    && Canonical(w.heap.nodes) && Sized(w.heap.pools) && Sized(w.busy)
    && ValidRuns(w.runs) && ValidRuns(w.bulk)
  }

  ghost predicate HeadersMatch(w: World) {
    && Tagged(w.heap.pools, w.heap.headers, true) && Tagged(w.busy, w.heap.headers, false)
    && BulkTagged(w.bulk, w.heap.headers)
  }

  ghost predicate Inv(region: seq<Node>, w: World) {
    Shaped(w) && HeadersMatch(w) && PoolTiles(w) && RegionTiles(region, w)
  }

  lemma HeapIsSound(region: seq<Node>, w: World)
    requires Inv(region, w)
    ensures Sound(w.heap)
  {
    forall a ensures Total(w.heap.pools, CLASSES, a) + FreeBit(w.heap.nodes, a) <= 1 {
      assert FreeBit(region, a) <= 1;
    }
  }

  /** The holders of one byte, all counted: at most one of them. */
  lemma ByteCount(region: seq<Node>, w: World, a: int)
    requires Inv(region, w)
    ensures |w.heap.pools| == |w.busy| == CLASSES
    ensures FreeBit(w.heap.nodes, a) + RunHits(w.runs, a) + RunHits(w.bulk, a)
            + Total(w.heap.pools, CLASSES, a) + Total(w.busy, CLASSES, a) == FreeBit(region, a) <= 1
  {
  }

  // ----- Requests

  datatype Op =
    | AllocPages(t: AllocateType, m: MemoryType, n: nat, memory: nat)
    | AllocAligned(m: MemoryType, n: nat, alignment: nat)
    | AllocPool(m: MemoryType, size: nat)
    | FreeRange(k: nat, skip: nat, n: nat)
    | FreeSmall(i: nat, j: nat)
    | FreeBulk(j: nat)

  /** What the interface asks of its callers: a page count, a power-of-two alignment, and frees
      of memory that is in use. */
  predicate Permitted(w: World, op: Op) {
    match op
    case AllocPages(t, m, n, memory) =>
      n >= 1 && memory < ADDRESS_LIMIT && (t == Address ==> memory + PAGE_SIZE * n < ADDRESS_LIMIT)
    case AllocAligned(m, n, alignment) =>
      ValidAlignment(alignment) && RealPages(n, alignment) < ADDRESS_LIMIT
    case AllocPool(m, size) =>
      size < ADDRESS_LIMIT && size + HEADER_SIZE != ADDRESS_LIMIT
    case FreeRange(k, skip, n) =>
      k < |w.runs| && n >= 1 && skip + n <= w.runs[k].pages
    case FreeSmall(i, j) =>
      i < |w.busy| && j < |w.busy[i]|
    case FreeBulk(j) =>
      j < |w.bulk|
  }

  // ----- Page runs

  function TakeRun(w: World, l: seq<Node>, memory: nat, n: nat): World {
    w.(heap := w.heap.(nodes := l), runs := w.runs + [Node(memory, n)])
  }

  lemma TakeRunKeepsInv(region: seq<Node>, w: World, l: seq<Node>, memory: nat, n: nat)
    requires Inv(region, w) && Canonical(l) && n >= 1
    requires Aligned(memory) && 0 < memory && memory + PAGE_SIZE * n < ADDRESS_LIMIT
    requires AllFree(w.heap.nodes, memory, n) && Removes(w.heap.nodes, l, memory, n)
    ensures Inv(region, TakeRun(w, l, memory, n))
  {
    var p := Node(memory, n);
    forall a
      ensures FreeBit(l, a) + RunHits(w.runs + [p], a) == FreeBit(w.heap.nodes, a) + RunHits(w.runs, a)
    {
      RunHitsAppend(w.runs, p, a);
      assert Holds(p, a) == InRange(a, memory, n);
    }
  }

  function GiveRange(w: World, k: nat, skip: nat, n: nat): World
    requires k < |w.runs| && skip + n <= w.runs[k].pages
  {
    var p := w.runs[k];
    var base := p.base + PAGE_SIZE * skip;
    w.(heap := w.heap.(nodes := FreePages(w.heap.nodes, base, n).0),
       runs := w.runs[..k] + Remains(p, base, n) + w.runs[k + 1..])
  }

  /** Memory in use can always be given back. */
  lemma HeldRangeCanBeFreed(region: seq<Node>, w: World, p: Node, base: nat, n: nat)
    requires Inv(region, w) && ValidNode(p) && p.base <= base && base + PAGE_SIZE * n <= p.End()
    requires Aligned(base) && n >= 1
    requires forall a :: Holds(p, a) ==> RunHits(w.runs, a) + RunHits(w.bulk, a) >= 1
    ensures var (l, status) := FreePages(w.heap.nodes, base, n);
            status == Success && Canonical(l) && Adds(w.heap.nodes, l, base, n)
    ensures NoneFree(w.heap.nodes, base, n)
  {
    forall a | InRange(a, base, n) ensures !FreeAt(w.heap.nodes, a) {
      assert Holds(p, a);
      ByteCount(region, w, a);
    }
    FreePagesIsExact(w.heap.nodes, base, n);
  }

  /** Taking a range out of run `k` takes its bytes from the runs once each. */
  lemma RunsLoseTheRange(rs: seq<Node>, k: nat, base: nat, n: nat, a: int)
    requires k < |rs| && ValidNode(rs[k]) && Aligned(base) && n >= 1
    requires rs[k].base <= base && base + PAGE_SIZE * n <= rs[k].End()
    ensures RunHits(rs[..k] + Remains(rs[k], base, n) + rs[k + 1..], a)
            == RunHits(rs, a) - if InRange(a, base, n) then 1 else 0
  {
    hide Remains, ValidNode, Canonical;
    var rest := Remains(rs[k], base, n);
    RunHitsSplit(rs, k, a);
    RunHitsConcat(rs[..k] + rest, rs[k + 1..], a);
    RunHitsConcat(rs[..k], rest, a);
    RemainsBytes(rs[k], base, n, a);
    RunHitsCanonical(rest, a);
  }

  lemma RunsStayValid(rs: seq<Node>, k: nat, base: nat, n: nat)
    requires ValidRuns(rs) && k < |rs| && Aligned(base) && n >= 1
    requires rs[k].base <= base && base + PAGE_SIZE * n <= rs[k].End()
    ensures ValidRuns(rs[..k] + Remains(rs[k], base, n) + rs[k + 1..])
  {
    hide Remains, ValidNode;
    RemainsBytes(rs[k], base, n, 0);
  }

  lemma GiveRangeKeepsInv(region: seq<Node>, w: World, k: nat, skip: nat, n: nat)
    requires Inv(region, w) && k < |w.runs| && n >= 1 && skip + n <= w.runs[k].pages
    ensures FreePages(w.heap.nodes, w.runs[k].base + PAGE_SIZE * skip, n).1 == Success
    ensures Inv(region, GiveRange(w, k, skip, n))
  {
    hide FreePages, Remains, Canonical, FreeAt;
    var p := w.runs[k];
    var base := p.base + PAGE_SIZE * skip;
    var w' := GiveRange(w, k, skip, n);
    forall a | Holds(p, a) ensures RunHits(w.runs, a) + RunHits(w.bulk, a) >= 1 {
      RunHitsSplit(w.runs, k, a);
    }
    HeldRangeCanBeFreed(region, w, p, base, n);
    RunsStayValid(w.runs, k, base, n);
    forall a
      ensures FreeBit(w'.heap.nodes, a) + RunHits(w'.runs, a) == FreeBit(w.heap.nodes, a) + RunHits(w.runs, a)
    {
      RunsLoseTheRange(w.runs, k, base, n, a);
    }
  }

  // ----- Small pool buffers

  function TakeSmall(w: World, i: nat): World
    requires i < CLASSES == |w.heap.pools| == |w.busy|
  {
    match AllocIndex(w.heap, i)
    case None => w
    case Some(t) =>
      w.(heap := t.heap, busy := w.busy[i := [t.block] + w.busy[i]],
         owned := w.owned + if Source(w.heap, i) == CLASSES then {NewPage(w.heap).memory as int} else {})
  }

  /** The nodes lose exactly the page that the pool took, if it took one. */
  lemma PoolTakesOnePage(h: Heap, owned: set<int>, i: nat, a: int)
    requires Sound(h) && i <= CLASSES && AllocIndex(h, i).Some?
    requires FreeBit(h.nodes, a) + OwnedBit(owned, a) <= 1
    ensures var taken := if Source(h, i) == CLASSES then {NewPage(h).memory as int} else {};
            FreeBit(AllocIndex(h, i).value.heap.nodes, a) + OwnedBit(owned + taken, a)
            == FreeBit(h.nodes, a) + OwnedBit(owned, a)
  {
    hide AllocatePages, AllocIndex, SplitsTo;
    SplitsSmallestClass(h, i);
    AllocatePagesMeaning(h.nodes, AnyPages, RuntimeServicesData, 1, 0);
    if Source(h, i) == CLASSES {
      var page := NewPage(h).memory;
      assert InRange(a, page, 1) <==> PageOf(a) == page;
    }
  }

  lemma BulkTaggedKept(region: seq<Node>, w: World, h: Heap)
    requires Inv(region, w) && KeepsOtherHeaders(w.heap, h)
    ensures BulkTagged(w.bulk, h.headers)
  {
    forall j | 0 <= j < |w.bulk|
      ensures w.bulk[j].base in h.headers && h.headers[w.bulk[j].base] == w.heap.headers[w.bulk[j].base]
    {
      var x := w.bulk[j].base;
      RunHitsSplit(w.bulk, j, x);
      assert Holds(w.bulk[j], x);
      ByteCount(region, w, x);
    }
  }

  lemma BusyTaggedKept(region: seq<Node>, w: World, h: Heap)
    requires Inv(region, w) && KeepsOtherHeaders(w.heap, h)
    ensures Tagged(w.busy, h.headers, false)
  {
    forall i, j | 0 <= i < |w.busy| && 0 <= j < |w.busy[i]|
      ensures w.busy[i][j] in h.headers && h.headers[w.busy[i][j]] == Header(BlockSize(i), false)
    {
      BlockHoldsItsBase(w.busy, i, j);
      ByteCount(region, w, w.busy[i][j]);
    }
  }

  lemma TakeSmallTiles(region: seq<Node>, w: World, i: nat)
    requires Inv(region, w) && i < CLASSES && AllocIndex(w.heap, i).Some?
    ensures PoolTiles(TakeSmall(w, i)) && RegionTiles(region, TakeSmall(w, i))
  {
    hide AllocIndex;
    HeapIsSound(region, w);
    AllocIndexIsTakenWell(w.heap, i);
    var t := AllocIndex(w.heap, i).value;
    var w' := TakeSmall(w, i);
    forall a
      ensures Total(w'.heap.pools, CLASSES, a) + Total(w'.busy, CLASSES, a) == OwnedBit(w'.owned, a)
      ensures FreeBit(w'.heap.nodes, a) + OwnedBit(w'.owned, a) == FreeBit(w.heap.nodes, a) + OwnedBit(w.owned, a)
    {
      ByteCount(region, w, a);
      PoolTakesOnePage(w.heap, w.owned, i, a);
      TotalUpdate(w.busy, CLASSES, i, w'.busy[i], a);
      assert w'.busy[i][1..] == w.busy[i];
    }
  }

  lemma TakeSmallKeepsInv(region: seq<Node>, w: World, i: nat)
    requires Inv(region, w) && i < CLASSES
    ensures Inv(region, TakeSmall(w, i))
  {
    hide AllocIndex;
    if AllocIndex(w.heap, i).Some? {
      var t := AllocIndex(w.heap, i).value;
      TakeSmallTiles(region, w, i);
      HeapIsSound(region, w);
      AllocIndexIsTakenWell(w.heap, i);
      BulkTaggedKept(region, w, t.heap);
      BusyTaggedKept(region, w, t.heap);
      AddedSized(w.busy, i, t.block);
      AddedTagged(w.busy, i, t.block, t.heap.headers, false);
    }
  }

  /** The heap once block `b` is back at the head of list `i`. */
  function BackOnList(h: Heap, i: nat, b: nat): Heap
    requires i < |h.pools|
  {
    h.(pools := h.pools[i := [b] + h.pools[i]], headers := h.headers[b := Header(BlockSize(i), true)])
  }

  /** Every ASSERT on the free path holds for every small buffer in use, and the block goes back
      to the list it came from. */
  lemma SmallBufferCanBeFreed(region: seq<Node>, w: World, i: nat, j: nat)
    requires Inv(region, w) && i < CLASSES && j < |w.busy[i]|
    ensures var b := w.busy[i][j];
            && FreeAssertsHold(w.heap, b)
            && FreePool(w.heap, b + HEADER_SIZE) == (BackOnList(w.heap, i, b), Success)
  {
    SizeOfClass(i);
    BlockSizes(i);
    BlockSizeMonotone(i, 5);
  }

  function GiveSmall(w: World, i: nat, j: nat, h: Heap): World
    requires i < |w.busy| && j < |w.busy[i]|
  {
    w.(heap := h, busy := w.busy[i := w.busy[i][..j] + w.busy[i][j + 1..]])
  }

  lemma RemovedShape(pools: seq<seq<nat>>, i: nat, j: nat, headers: map<nat, Header>, available: bool)
    requires Sized(pools) && Tagged(pools, headers, available) && i < CLASSES && j < |pools[i]|
    ensures var pools' := pools[i := pools[i][..j] + pools[i][j + 1..]];
            Sized(pools') && Tagged(pools', headers, available)
  {
    var pools' := pools[i := pools[i][..j] + pools[i][j + 1..]];
    forall k, q | 0 <= k < |pools'| && 0 <= q < |pools'[k]|
      ensures pools'[k][q] == pools[k][if k == i && q >= j then q + 1 else q]
    {
    }
  }

  lemma GiveSmallTiles(region: seq<Node>, w: World, i: nat, j: nat)
    requires Inv(region, w) && i < CLASSES && j < |w.busy[i]|
    ensures var b := w.busy[i][j];
            var w' := GiveSmall(w, i, j, BackOnList(w.heap, i, b));
            && PoolTiles(w')
            && Total(w.heap.pools, CLASSES, b) == 0 && Total(w'.busy, CLASSES, b) == 0 && RunHits(w.bulk, b) == 0
  {
    var b := w.busy[i][j];
    var w' := GiveSmall(w, i, j, BackOnList(w.heap, i, b));
    BlockSizes(i);
    forall a
      ensures Total(w'.heap.pools, CLASSES, a) == Total(w.heap.pools, CLASSES, a) + Bit(Covers(b, BlockSize(i), a))
      ensures Total(w'.busy, CLASSES, a) + Bit(Covers(b, BlockSize(i), a)) == Total(w.busy, CLASSES, a)
    {
      MovedBlockCounts(w, i, j, a);
    }
    BlockHoldsItsBase(w.busy, i, j);
    ByteCount(region, w, b);
    assert Covers(b, BlockSize(i), b);
  }

  lemma MovedBlockCounts(w: World, i: nat, j: nat, a: int)
    requires |w.heap.pools| == |w.busy| == CLASSES && i < CLASSES && j < |w.busy[i]|
    ensures var b := w.busy[i][j];
            var w' := GiveSmall(w, i, j, BackOnList(w.heap, i, b));
            && Total(w'.heap.pools, CLASSES, a) == Total(w.heap.pools, CLASSES, a) + Bit(Covers(b, BlockSize(i), a))
            && Total(w'.busy, CLASSES, a) + Bit(Covers(b, BlockSize(i), a)) == Total(w.busy, CLASSES, a)
  {
    hide BlockSize;
    var b := w.busy[i][j];
    var back, rest := [b] + w.heap.pools[i], w.busy[i][..j] + w.busy[i][j + 1..];
    TotalUpdate(w.heap.pools, CLASSES, i, back, a);
    assert back[1..] == w.heap.pools[i];
    TotalUpdate(w.busy, CLASSES, i, rest, a);
    HitsRemove(w.busy[i], BlockSize(i), j, a);
  }

  lemma BulkTaggedAfterWrite(bulk: seq<Node>, headers: map<nat, Header>, x: nat, hdr: Header)
    requires ValidRuns(bulk) && BulkTagged(bulk, headers) && RunHits(bulk, x) == 0
    ensures BulkTagged(bulk, headers[x := hdr])
  {
    forall j | 0 <= j < |bulk| ensures bulk[j].base != x {
      RunHitsSplit(bulk, j, x);
      assert Holds(bulk[j], bulk[j].base);
    }
  }

  lemma GiveSmallHeaders(region: seq<Node>, w: World, i: nat, j: nat)
    requires Inv(region, w) && i < CLASSES && j < |w.busy[i]|
    ensures var w' := GiveSmall(w, i, j, BackOnList(w.heap, i, w.busy[i][j]));
            HeadersMatch(w') && Sized(w'.busy)
  {
    hide BlockSize;
    var b := w.busy[i][j];
    var hdr := Header(BlockSize(i), true);
    GiveSmallTiles(region, w, i, j);
    RemovedShape(w.busy, i, j, w.heap.headers, false);
    var w' := GiveSmall(w, i, j, BackOnList(w.heap, i, b));
    TaggedAfterWrite(w'.busy, w.heap.headers, b, hdr, false);
    TaggedAfterWrite(w.heap.pools, w.heap.headers, b, hdr, true);
    AddedTagged(w.heap.pools, i, b, w.heap.headers[b := hdr], true);
    BulkTaggedAfterWrite(w.bulk, w.heap.headers, b, hdr);
  }

  lemma GiveSmallKeepsInv(region: seq<Node>, w: World, i: nat, j: nat)
    requires Inv(region, w) && i < CLASSES && j < |w.busy[i]|
    ensures FreeAssertsHold(w.heap, w.busy[i][j])
    ensures Inv(region, GiveSmall(w, i, j, FreePool(w.heap, w.busy[i][j] + HEADER_SIZE).0))
  {
    hide FreePool, FreeAssertsHold;
    SmallBufferCanBeFreed(region, w, i, j);
    GiveSmallTiles(region, w, i, j);
    GiveSmallHeaders(region, w, i, j);
    AddedSized(w.heap.pools, i, w.busy[i][j]);
  }

  // ----- Large pool buffers

  function TakeBulk(w: World, l: seq<Node>, memory: nat, n: nat): World {
    w.(heap := Heap(l, w.heap.pools, w.heap.headers[memory := Header(PAGE_SIZE * n, false)]),
       bulk := w.bulk + [Node(memory, n)])
  }

  lemma TakeBulkKeepsInv(region: seq<Node>, w: World, l: seq<Node>, memory: nat, n: nat)
    requires Inv(region, w) && Canonical(l) && n >= 1
    requires Aligned(memory) && 0 < memory && memory + PAGE_SIZE * n < ADDRESS_LIMIT
    requires AllFree(w.heap.nodes, memory, n) && Removes(w.heap.nodes, l, memory, n)
    ensures Inv(region, TakeBulk(w, l, memory, n))
  {
    var p, hdr := Node(memory, n), Header(PAGE_SIZE * n, false);
    forall a
      ensures FreeBit(l, a) + RunHits(w.bulk + [p], a) == FreeBit(w.heap.nodes, a) + RunHits(w.bulk, a)
    {
      RunHitsAppend(w.bulk, p, a);
      assert Holds(p, a) == InRange(a, memory, n);
    }
    assert InRange(memory, memory, n);
    ByteCount(region, w, memory);
    TaggedAfterWrite(w.heap.pools, w.heap.headers, memory, hdr, true);
    TaggedAfterWrite(w.busy, w.heap.headers, memory, hdr, false);
    BulkTaggedAfterWrite(w.bulk, w.heap.headers, memory, hdr);
  }

  function GiveBulk(w: World, j: nat, h: Heap): World
    requires j < |w.bulk|
  {
    w.(heap := h, bulk := w.bulk[..j] + w.bulk[j + 1..])
  }

  /** A large buffer goes back to the page list whole. */
  lemma GiveBulkKeepsInv(region: seq<Node>, w: World, j: nat)
    requires Inv(region, w) && j < |w.bulk|
    ensures FreeAssertsHold(w.heap, w.bulk[j].base)
    ensures FreePool(w.heap, w.bulk[j].base + HEADER_SIZE).1 == Success
    ensures Inv(region, GiveBulk(w, j, FreePool(w.heap, w.bulk[j].base + HEADER_SIZE).0))
  {
    hide FreePages;
    var p := w.bulk[j];
    assert SizeToPages(PAGE_SIZE * p.pages) == p.pages;
    forall a | Holds(p, a) ensures RunHits(w.runs, a) + RunHits(w.bulk, a) >= 1 {
      RunHitsSplit(w.bulk, j, a);
    }
    HeldRangeCanBeFreed(region, w, p, p.base, p.pages);
    var w' := GiveBulk(w, j, FreePool(w.heap, p.base + HEADER_SIZE).0);
    assert w'.heap == w.heap.(nodes := FreePages(w.heap.nodes, p.base, p.pages).0);
    forall a
      ensures FreeBit(w'.heap.nodes, a) + RunHits(w'.bulk, a) == FreeBit(w.heap.nodes, a) + RunHits(w.bulk, a)
    {
      RunHitsSplit(w.bulk, j, a);
      RunHitsConcat(w.bulk[..j], w.bulk[j + 1..], a);
      assert Holds(p, a) == InRange(a, p.base, p.pages);
    }
  }

  // ----- Runs

  /** A buffer whose header says how large it is, and which class it is of if it is small. */
  predicate Readable(o: PoolOutcome) {
    && o.buffer >= HEADER_SIZE && o.buffer - HEADER_SIZE in o.heap.headers
    && var block := o.heap.headers[o.buffer - HEADER_SIZE].size;
       block > 0 && (block <= MAX_POOL_SIZE ==> 0 <= FreeIndex(block) < CLASSES)
  }

  /** The ledger after a pool request, read off the buffer, its header and the page list that came back. */
  function AfterPoolRequest(w: World, o: PoolOutcome): World
    requires |w.busy| == CLASSES && (o.status == Success ==> Readable(o))
  {
    if o.status != Success then w.(heap := o.heap)
    else
      var b := o.buffer - HEADER_SIZE;
      var block := o.heap.headers[b].size;
      if block > MAX_POOL_SIZE then w.(heap := o.heap, bulk := w.bulk + [Node(b, block / PAGE_SIZE)])
      else
        var i := FreeIndex(block);
        w.(heap := o.heap, busy := w.busy[i := [b] + w.busy[i]],
           owned := w.owned + if o.heap.nodes == w.heap.nodes then {} else {PageOf(b)})
  }

  function AllocPoolStep(w: World, m: MemoryType, size: nat): World
    requires Sound(w.heap) && |w.heap.pools| == |w.busy| == CLASSES
    requires size < ADDRESS_LIMIT && size + HEADER_SIZE != ADDRESS_LIMIT
  {
    GrantIsReadable(w.heap, m, size);
    AfterPoolRequest(w, AllocatePool(w.heap, m, size))
  }

  lemma GrantIsReadable(h: Heap, m: MemoryType, size: nat)
    requires Sound(h) && |h.pools| == CLASSES && size < ADDRESS_LIMIT && size + HEADER_SIZE != ADDRESS_LIMIT
    ensures AllocatePool(h, m, size).status == Success ==> Readable(AllocatePool(h, m, size))
  {
    hide AllocatePool, Sound, FreeIndex, Conserves, KeepsOtherHeaders, Sized, Tagged, Canonical, Highest;
    hide BlockToBeHad, PagesToBeHad;
    AllocatePoolIsExact(h, m, size);
    var o := AllocatePool(h, m, size);
    if o.status == Success {
      var total := if size + 24 < ADDRESS_LIMIT then size + 24 else size + 24 - ADDRESS_LIMIT;
      if total <= 2048 {
        SmallBlockHasClass(o.heap.headers[o.buffer - 24].size, total);
      }
    }
  }

  lemma SmallBlockHasClass(block: nat, total: nat)
    requires SmallFit(block, total)
    ensures 0 <= FreeIndex(block) < CLASSES
  {
    SixPowers();
  }

  /** The page a new block was cut from leaves the list, and the block lies in it. */
  lemma NewPageShows(region: seq<Node>, w: World, i: nat)
    requires Inv(region, w) && i < CLASSES && AllocIndex(w.heap, i).Some?
    ensures var t := AllocIndex(w.heap, i).value;
            if Source(w.heap, i) == CLASSES
            then t.heap.nodes != w.heap.nodes && PageOf(t.block) == NewPage(w.heap).memory
            else t.heap.nodes == w.heap.nodes
  {
    hide AllocIndex, AllocatePages, BlockSize;
    SplitsSmallestClass(w.heap, i);
    if Source(w.heap, i) == CLASSES {
      var page := NewPage(w.heap).memory;
      AllocatePagesMeaning(w.heap.nodes, AnyPages, RuntimeServicesData, 1, 0);
      assert InRange(page, page, 1);
      BlockSizes(i);
      BlockSizeMonotone(i, CLASSES);
    }
  }

  /** The ledger of a small request, read off its outcome, is the ledger of taking one block. */
  lemma SmallStepTakesSmall(region: seq<Node>, w: World, m: MemoryType, size: nat)
    requires Inv(region, w) && Sound(w.heap) && size < ADDRESS_LIMIT && m != OtherMemory
    requires 0 < Wrap(size + HEADER_SIZE) <= MAX_POOL_SIZE
    ensures PoolIndex(Wrap(size + HEADER_SIZE)) < CLASSES
    ensures AllocPoolStep(w, m, size) == TakeSmall(w, PoolIndex(Wrap(size + HEADER_SIZE)))
  {
    hide AllocIndex, AllocatePages, BlockSize, Inv, HighBitSet;
    var i := PoolIndex(Wrap(size + HEADER_SIZE));
    PoolIndexIsSmallest(Wrap(size + HEADER_SIZE));
    BusyClasses(region, w);
    if AllocIndex(w.heap, i).Some? {
      var t := AllocIndex(w.heap, i).value;
      NewPageShows(region, w, i);
      SizeOfClass(i);
      BlockSizeMonotone(i, 5);
      BlockSizes(0);
      assert t.heap.headers[t.block] == Header(BlockSize(i), false);
    }
  }

  ghost function Step(region: seq<Node>, w: World, op: Op): World
    requires Inv(region, w) && Permitted(w, op)
  {
    HeapIsSound(region, w);
    match op
    case AllocPages(t, m, n, memory) =>
      var o := AllocatePages(w.heap.nodes, t, m, n, memory);
      if o.status == Success then TakeRun(w, o.nodes, o.memory, n) else w.(heap := w.heap.(nodes := o.nodes))
    case AllocAligned(m, n, alignment) =>
      var (l, r) := AllocateAligned(w.heap.nodes, m, n, alignment);
      if r != 0 then TakeRun(w, l, r, n) else w.(heap := w.heap.(nodes := l))
    case AllocPool(m, size) =>
      AllocPoolStep(w, m, size)
    case FreeRange(k, skip, n) =>
      GiveRange(w, k, skip, n)
    case FreeSmall(i, j) =>
      GiveSmallKeepsInv(region, w, i, j);
      GiveSmall(w, i, j, FreePool(w.heap, w.busy[i][j] + HEADER_SIZE).0)
    case FreeBulk(j) =>
      GiveBulkKeepsInv(region, w, j);
      GiveBulk(w, j, FreePool(w.heap, w.bulk[j].base + HEADER_SIZE).0)
  }

  lemma AllocPoolStepKeepsInv(region: seq<Node>, w: World, m: MemoryType, size: nat)
    requires Inv(region, w) && Sound(w.heap) && size < ADDRESS_LIMIT && size + HEADER_SIZE != ADDRESS_LIMIT
    ensures Inv(region, AllocPoolStep(w, m, size))
  {
    hide AllocatePages, AllocIndex, Inv;
    BusyClasses(region, w);
    var total := Wrap(size + HEADER_SIZE);
    if m != OtherMemory {
      if total > MAX_POOL_SIZE {
        LargeStepTakesBulk(region, w, m, size, total);
      } else {
        SmallStepTakesSmall(region, w, m, size);
        TakeSmallKeepsInv(region, w, PoolIndex(total));
      }
    }
  }

  lemma LargeStepTakesBulk(region: seq<Node>, w: World, m: MemoryType, size: nat, total: nat)
    requires Inv(region, w) && Sound(w.heap) && size < ADDRESS_LIMIT && m != OtherMemory
    requires total == Wrap(size + HEADER_SIZE) > MAX_POOL_SIZE
    ensures Inv(region, AllocPoolStep(w, m, size))
  {
    hide AllocatePages, AllocIndex, Inv, HighBitSet;
    BusyClasses(region, w);
    var n := SizeToPages(total);
    AllocatePagesMeaning(w.heap.nodes, AnyPages, m, n, 0);
    var o := AllocatePages(w.heap.nodes, AnyPages, m, n, 0);
    if o.status == Success {
      TakeBulkKeepsInv(region, w, o.nodes, o.memory, n);
      assert PAGE_SIZE * n > MAX_POOL_SIZE && PAGE_SIZE * n / PAGE_SIZE == n;
      assert AllocPoolStep(w, m, size) == TakeBulk(w, o.nodes, o.memory, n);
    }
  }

  lemma StepKeepsInv(region: seq<Node>, w: World, op: Op)
    requires Inv(region, w) && Permitted(w, op)
    ensures Inv(region, Step(region, w, op))
  {
    hide AllocatePages, AllocateAligned, FreePool, Inv;
    match op
    case AllocPages(t, m, n, memory) =>
      AllocStepKeepsInv(region, w, t, m, n, memory);
    case AllocAligned(m, n, alignment) =>
      AlignedStepKeepsInv(region, w, m, n, alignment);
    case AllocPool(m, size) =>
      HeapIsSound(region, w);
      AllocPoolStepKeepsInv(region, w, m, size);
    case FreeRange(k, skip, n) =>
      GiveRangeKeepsInv(region, w, k, skip, n);
    case FreeSmall(i, j) =>
      assert |w.busy| == CLASSES by {
        BusyClasses(region, w);
      }
      GiveSmallKeepsInv(region, w, i, j);
    case FreeBulk(j) =>
      GiveBulkKeepsInv(region, w, j);
  }

  lemma BusyClasses(region: seq<Node>, w: World)
    requires Inv(region, w)
    ensures |w.busy| == CLASSES
  {
  }

  lemma AllocStepKeepsInv(region: seq<Node>, w: World, t: AllocateType, m: MemoryType, n: nat, memory: nat)
    requires Inv(region, w) && Permitted(w, AllocPages(t, m, n, memory))
    ensures Inv(region, Step(region, w, AllocPages(t, m, n, memory)))
  {
    hide AllocatePages, FreePool;
    AllocatePagesMeaning(w.heap.nodes, t, m, n, memory);
    var o := AllocatePages(w.heap.nodes, t, m, n, memory);
    if o.status == Success {
      TakeRunKeepsInv(region, w, o.nodes, o.memory, n);
    } else {
      assert w.heap.(nodes := o.nodes) == w.heap;
    }
  }

  lemma AlignedStepKeepsInv(region: seq<Node>, w: World, m: MemoryType, n: nat, alignment: nat)
    requires Inv(region, w) && Permitted(w, AllocAligned(m, n, alignment))
    ensures Inv(region, Step(region, w, AllocAligned(m, n, alignment)))
  {
    hide AllocateAligned, FreePool;
    AllocateAlignedIsExact(w.heap.nodes, m, n, alignment);
    var (l, r) := AllocateAligned(w.heap.nodes, m, n, alignment);
    if r != 0 {
      TakeRunKeepsInv(region, w, l, r, n);
    } else {
      assert w.heap.(nodes := l) == w.heap;
    }
  }

  /** The allocator just after start-up: everything in the region is on the page list. */
  function Start(region: seq<Node>): World {
    World(Heap(region, EmptyClasses(), map[]), EmptyClasses(), [], [], {})
  }

  lemma {:induction false} NothingInEmptyClasses(k: nat, a: int)
    requires k <= CLASSES
    ensures Total(EmptyClasses(), k, a) == 0
  {
    if k > 0 {
      NothingInEmptyClasses(k - 1, a);
    }
  }

  lemma StartHoldsInv(region: seq<Node>)
    requires Canonical(region)
    ensures Inv(region, Start(region))
  {
    forall a ensures Total(EmptyClasses(), CLASSES, a) == 0 {
      NothingInEmptyClasses(CLASSES, a);
    }
  }

  /** Carries out the requests in order, passing over any that a caller may not make. */
  ghost function Execute(region: seq<Node>, w: World, ops: seq<Op>): World
    requires Inv(region, w)
    decreases |ops|
  {
    if ops == [] then w
    else if !Permitted(w, ops[0]) then Execute(region, w, ops[1..])
    else
      StepKeepsInv(region, w, ops[0]);
      Execute(region, Step(region, w, ops[0]), ops[1..])
  }

  lemma {:induction false} ExecuteKeepsInv(region: seq<Node>, w: World, ops: seq<Op>)
    requires Inv(region, w)
    ensures Inv(region, Execute(region, w, ops))
    decreases |ops|
  {
    hide Inv, Step;
    if ops != [] {
      if !Permitted(w, ops[0]) {
        ExecuteKeepsInv(region, w, ops[1..]);
      } else {
        StepKeepsInv(region, w, ops[0]);
        ExecuteKeepsInv(region, Step(region, w, ops[0]), ops[1..]);
      }
    }
  }

  /** Over every run, at every byte: the free list, the page runs, the large buffers, the free pool
      blocks and the small buffers in use together hold each byte of the region exactly once and
      hold nothing else. Nothing is handed out twice and nothing is lost. */
  lemma EveryRunConservesTheRegion(region: seq<Node>, ops: seq<Op>, a: int)
    requires Canonical(region)
    ensures Inv(region, Start(region))
    ensures var w := Execute(region, Start(region), ops);
            && Inv(region, w)
            && |w.heap.pools| == |w.busy| == CLASSES
            && FreeBit(w.heap.nodes, a) + RunHits(w.runs, a) + RunHits(w.bulk, a)
               + Total(w.heap.pools, CLASSES, a) + Total(w.busy, CLASSES, a) == FreeBit(region, a)
            && Canonical(w.heap.nodes) && Sized(w.heap.pools) && Sized(w.busy)
  {
    hide Step, Execute;
    StartHoldsInv(region);
    ExecuteKeepsInv(region, Start(region), ops);
    ByteCount(region, Execute(region, Start(region), ops), a);
  }

  lemma SamePage(a: int, b: int, page: int)
    requires PAGE_SIZE * page <= b <= a < PAGE_SIZE * (page + 1)
    ensures PageOf(a) == PageOf(b)
  {
  }

  lemma EvenSplit(b: nat, size: nat, a: int)
    requires size > 0 && PAGE_SIZE % size == 0 && b % size == 0 && Covers(b, size, a)
    ensures PageOf(a) == PageOf(b)
  {
    hide PageOf;
    var k, parts, page := b / size, PAGE_SIZE / size, b / PAGE_SIZE;
    var next := parts * (page + 1);
    assert size * next == PAGE_SIZE * (page + 1) by {
      assert PAGE_SIZE == size * parts;
      assert size * (parts * (page + 1)) == (size * parts) * (page + 1);
    }
    StrictFactor(size, k, next);
    assert a < size * (k + 1);
    SamePage(a, b, page);
  }

  lemma StrictFactor(m: nat, x: nat, y: nat)
    requires m * x < m * y
    ensures m * (x + 1) <= m * y
  {
    assert x < y;
    assert m * (y - x - 1) >= 0;
  }

  lemma BlockFitsItsPage(b: nat, i: nat, a: int)
    requires i < CLASSES && b % BlockSize(i) == 0 && Covers(b, BlockSize(i), a)
    ensures PageOf(a) == PageOf(b)
  {
    SizeOfClass(i);
    Pow2Sum(6 - i, i + 6);
    assert Pow2(12) == PAGE_SIZE;
    MultipleOf(Pow2(6 - i), BlockSize(i));
    EvenSplit(b, BlockSize(i), a);
  }

  /** Every pool block, free or in use, lies inside one page, and the pool owns that page. */
  lemma BlocksLieInOwnedPages(region: seq<Node>, w: World, i: nat, j: nat, a: int)
    requires Inv(region, w) && i < CLASSES
    ensures j < |w.heap.pools[i]| && Covers(w.heap.pools[i][j], BlockSize(i), a) ==>
              PageOf(a) == PageOf(w.heap.pools[i][j]) && PageOf(a) in w.owned
    ensures j < |w.busy[i]| && Covers(w.busy[i][j], BlockSize(i), a) ==>
              PageOf(a) == PageOf(w.busy[i][j]) && PageOf(a) in w.owned
  {
    if j < |w.heap.pools[i]| && Covers(w.heap.pools[i][j], BlockSize(i), a) {
      TotalMember(w.heap.pools, CLASSES, i, j, a);
      BlockFitsItsPage(w.heap.pools[i][j], i, a);
    }
    if j < |w.busy[i]| && Covers(w.busy[i][j], BlockSize(i), a) {
      TotalMember(w.busy, CLASSES, i, j, a);
      BlockFitsItsPage(w.busy[i][j], i, a);
    }
  }

  // ----- One holder for every byte

  /** Anything that can hold memory: a node of the free list, a free pool block, a page run, a large
      buffer or a small buffer, by its place in the lists. */
  datatype Holder =
    | FreeNode(k: nat)
    | FreeBlock(i: nat, j: nat)
    | PageRun(k: nat)
    | LargeBuffer(k: nat)
    | SmallBuffer(i: nat, j: nat)

  predicate BlockHas(pools: seq<seq<nat>>, i: nat, j: nat, a: int) {
    i < |pools| && j < |pools[i]| && Covers(pools[i][j], BlockSize(i), a)
  }

  /** The holder exists and contains byte `a`. */
  predicate Has(w: World, h: Holder, a: int) {
    match h
    case FreeNode(k) => k < |w.heap.nodes| && Holds(w.heap.nodes[k], a)
    case FreeBlock(i, j) => BlockHas(w.heap.pools, i, j, a)
    case PageRun(k) => k < |w.runs| && Holds(w.runs[k], a)
    case LargeBuffer(k) => k < |w.bulk| && Holds(w.bulk[k], a)
    case SmallBuffer(i, j) => BlockHas(w.busy, i, j, a)
  }

  lemma RunsTwice(rs: seq<Node>, i: nat, j: nat, a: int)
    requires i < j < |rs| && Holds(rs[i], a) && Holds(rs[j], a)
    ensures RunHits(rs, a) >= 2
  {
    RunHitsSplit(rs, i, a);
    RunHitsSplit(rs[i + 1..], j - i - 1, a);
  }

  /** Two blocks with the same byte count twice, in one class or in two. */
  lemma BlocksTwice(pools: seq<seq<nat>>, i: nat, j: nat, i': nat, j': nat, a: int)
    requires BlockHas(pools, i, j, a) && BlockHas(pools, i', j', a) && (i, j) != (i', j')
    ensures Total(pools, |pools|, a) >= 2
  {
    hide BlockSize;
    var rest := pools[i][..j] + pools[i][j + 1..];
    TotalUpdate(pools, |pools|, i, rest, a);
    HitsRemove(pools[i], BlockSize(i), j, a);
    var left := pools[i := rest];
    var q := if i' == i && j' > j then j' - 1 else j';
    assert left[i'][q] == pools[i'][j'];
    TotalMember(left, |left|, i', q, a);
  }

  lemma HolderCounts(region: seq<Node>, w: World, h: Holder, a: int)
    requires Inv(region, w) && Has(w, h, a)
    ensures match h
            case FreeNode(k) => FreeBit(w.heap.nodes, a) == 1
            case FreeBlock(i, j) => Total(w.heap.pools, CLASSES, a) >= 1
            case PageRun(k) => RunHits(w.runs, a) >= 1
            case LargeBuffer(k) => RunHits(w.bulk, a) >= 1
            case SmallBuffer(i, j) => Total(w.busy, CLASSES, a) >= 1
  {
    hide BlockSize;
    match h
    case FreeNode(k) =>
    case FreeBlock(i, j) => TotalMember(w.heap.pools, CLASSES, i, j, a);
    case PageRun(k) => RunHitsSplit(w.runs, k, a);
    case LargeBuffer(k) => RunHitsSplit(w.bulk, k, a);
    case SmallBuffer(i, j) => TotalMember(w.busy, CLASSES, i, j, a);
  }

  /** No byte is in two holders of the same kind. */
  lemma SameKindTwice(region: seq<Node>, w: World, h: Holder, g: Holder, a: int)
    requires Inv(region, w) && Has(w, h, a) && Has(w, g, a)
    requires (h.FreeNode? && g.FreeNode?) || (h.FreeBlock? && g.FreeBlock?) || (h.PageRun? && g.PageRun?)
             || (h.LargeBuffer? && g.LargeBuffer?) || (h.SmallBuffer? && g.SmallBuffer?)
    ensures h == g
  {
    hide BlockSize;
    ByteCount(region, w, a);
    if h != g {
      match h
      case FreeNode(k) => HolderIsUnique(w.heap.nodes, k, g.k, a);
      case FreeBlock(i, j) => BlocksTwice(w.heap.pools, i, j, g.i, g.j, a);
      case PageRun(k) => RunsTwice(w.runs, if k < g.k then k else g.k, if k < g.k then g.k else k, a);
      case LargeBuffer(k) => RunsTwice(w.bulk, if k < g.k then k else g.k, if k < g.k then g.k else k, a);
      case SmallBuffer(i, j) => BlocksTwice(w.busy, i, j, g.i, g.j, a);
    }
  }

  lemma HoldersAreDisjoint(region: seq<Node>, w: World, h: Holder, g: Holder, a: int)
    requires Inv(region, w) && Has(w, h, a) && Has(w, g, a)
    ensures h == g && FreeAt(region, a)
  {
    hide Inv, Has;
    HolderCounts(region, w, h, a);
    HolderCounts(region, w, g, a);
    ByteCount(region, w, a);
    if || (h.FreeNode? && g.FreeNode?) || (h.FreeBlock? && g.FreeBlock?) || (h.PageRun? && g.PageRun?)
       || (h.LargeBuffer? && g.LargeBuffer?) || (h.SmallBuffer? && g.SmallBuffer?)
    {
      SameKindTwice(region, w, h, g, a);
    }
  }

  lemma {:induction false} HitRun(rs: seq<Node>, a: int) returns (k: nat)
    requires RunHits(rs, a) >= 1
    ensures k < |rs| && Holds(rs[k], a)
  {
    if Holds(rs[0], a) {
      k := 0;
    } else {
      k := HitRun(rs[1..], a);
      k := k + 1;
    }
  }

  lemma {:induction false} HitBlock(bs: seq<nat>, size: nat, a: int) returns (j: nat)
    requires Hits(bs, size, a) >= 1
    ensures j < |bs| && Covers(bs[j], size, a)
  {
    if Covers(bs[0], size, a) {
      j := 0;
    } else {
      j := HitBlock(bs[1..], size, a);
      j := j + 1;
    }
  }

  lemma {:induction false} HitClass(pools: seq<seq<nat>>, k: nat, a: int) returns (i: nat, j: nat)
    requires k <= |pools| && Total(pools, k, a) >= 1
    ensures i < k && BlockHas(pools, i, j, a)
  {
    hide BlockSize;
    if Hits(pools[k - 1], BlockSize(k - 1), a) >= 1 {
      i := k - 1;
      j := HitBlock(pools[i], BlockSize(i), a);
    } else {
      i, j := HitClass(pools, k - 1, a);
    }
  }

  lemma SomeoneHolds(region: seq<Node>, w: World, a: int) returns (h: Holder)
    requires Inv(region, w) && FreeAt(region, a)
    ensures Has(w, h, a)
  {
    hide Inv, BlockHas;
    ByteCount(region, w, a);
    if RunHits(w.runs, a) >= 1 {
      var k := HitRun(w.runs, a);
      h := PageRun(k);
    } else if RunHits(w.bulk, a) >= 1 {
      var k := HitRun(w.bulk, a);
      h := LargeBuffer(k);
    } else if Total(w.heap.pools, CLASSES, a) >= 1 {
      var i, j := HitClass(w.heap.pools, CLASSES, a);
      h := FreeBlock(i, j);
    } else if Total(w.busy, CLASSES, a) >= 1 {
      var i, j := HitClass(w.busy, CLASSES, a);
      h := SmallBuffer(i, j);
    } else {
      var k :| 0 <= k < |w.heap.nodes| && Holds(w.heap.nodes[k], a);
      h := FreeNode(k);
    }
  }

  /** Over every run: two holders that share a byte are the same holder, whatever their kinds, and
      the bytes held are exactly the bytes of the region. */
  lemma EveryByteHasOneHolder(region: seq<Node>, ops: seq<Op>, a: int)
    requires Canonical(region)
    ensures Inv(region, Start(region))
    ensures var w := Execute(region, Start(region), ops);
            && (forall h, g :: Has(w, h, a) && Has(w, g, a) ==> h == g)
            && (FreeAt(region, a) <==> exists h :: Has(w, h, a))
  {
    hide Step, Execute, Has, Inv;
    StartHoldsInv(region);
    ExecuteKeepsInv(region, Start(region), ops);
    var w := Execute(region, Start(region), ops);
    forall h, g | Has(w, h, a) && Has(w, g, a) ensures h == g && FreeAt(region, a) {
      HoldersAreDisjoint(region, w, h, g, a);
    }
    if FreeAt(region, a) {
      var h := SomeoneHolds(region, w, a);
    }
  }
}
