/** The power-of-two pool on top of the page list, as values.

    Class `i` holds blocks of 64 * 2^i bytes. A block starts with a header that records its size
    and whether it is available; `headers` is the part of memory that holds those headers.
 */
module Pool {
  import opened Pages
  import opened AlignedPages
  import opened Powers

  const CLASSES: nat := 6
  const MIN_POOL_SHIFT: nat := 6
  const MIN_POOL_SIZE: nat := 64
  const MAX_POOL_SIZE: nat := 2048

  /** `sizeof (POOL_HEADER)` on a 64-bit target. */
  const HEADER_SIZE: nat := 24

  datatype Option<+T> = None | Some(value: T)

  datatype Header = Header(size: nat, available: bool)

  datatype Heap = Heap(nodes: seq<Node>, pools: seq<seq<nat>>, headers: map<nat, Header>)

  /** A block handed out, with the heap after it was taken. */
  datatype Taken = Taken(heap: Heap, block: nat)

  datatype PoolOutcome = PoolOutcome(heap: Heap, buffer: nat, status: Status)

  function BlockSize(i: nat): nat {
    MIN_POOL_SIZE * Pow2(i)
  }

  function EmptyClasses(): seq<seq<nat>> {
    seq(CLASSES, _ => [])
  }

  // ----- The operations

  function AllocIndex(h: Heap, i: nat): (r: Option<Taken>)
    requires i <= CLASSES == |h.pools|
    ensures r.Some? ==>
              var h' := r.value.heap;
              && |h'.pools| == CLASSES && (forall j :: 0 <= j < i ==> h'.pools[j] == h.pools[j])
              && r.value.block in h'.headers && h'.headers[r.value.block] == Header(BlockSize(i), false)
    decreases CLASSES - i
  {
    if i == CLASSES then
      var o := AllocatePages(h.nodes, AnyPages, RuntimeServicesData, 1, 0);
      if o.status != Success then None
      else Some(Taken(Heap(o.nodes, h.pools, h.headers[o.memory := Header(BlockSize(i), false)]), o.memory))
    else if h.pools[i] != [] then
      var b := h.pools[i][0];
      Some(Taken(Heap(h.nodes, h.pools[i := h.pools[i][1..]], h.headers[b := Header(BlockSize(i), false)]), b))
    else
      match AllocIndex(h, i + 1)
      case None => None
      case Some(t) => Some(SplitOff(t.heap, i, t.block))
  }

  /** Keeps the lower half of the block on list `i` and hands out the upper half. */
  function SplitOff(h: Heap, i: nat, b: nat): Taken
    requires i < CLASSES == |h.pools| && b in h.headers
  {
    var half := h.headers[b].size / 2;
    var upper := b + half;
    Taken(
      Heap(h.nodes, h.pools[i := [b] + h.pools[i]],
           h.headers[b := Header(half, true)][upper := Header(BlockSize(i), false)]),
      upper)
  }

  /** The class of a request of `size` bytes, header included. */
  function PoolIndex(size: nat): nat
    requires 0 < size
  {
    var units := (size + MIN_POOL_SIZE - 1) / MIN_POOL_SIZE;
    HighBitSet(units) + if IsPowerOfTwo(units) then 0 else 1
  }

  /** The smallest class, by search: an independent definition. */
  ghost predicate IsSmallestClass(i: nat, size: nat) {
    BlockSize(i) >= size && forall j :: 0 <= j < i ==> BlockSize(j) < size
  }

  function AllocatePool(h: Heap, m: MemoryType, size: nat): PoolOutcome
    requires |h.pools| == CLASSES && size < ADDRESS_LIMIT && size + HEADER_SIZE != ADDRESS_LIMIT
  {
    if m == OtherMemory then PoolOutcome(h, 0, InvalidParameter)
    else
      var total := Wrap(size + HEADER_SIZE);
      if total > MAX_POOL_SIZE then
        var n := SizeToPages(total);
        var o := AllocatePages(h.nodes, AnyPages, m, n, 0);
        if o.status != Success then PoolOutcome(h, 0, o.status)
        else PoolOutcome(Heap(o.nodes, h.pools, h.headers[o.memory := Header(PAGE_SIZE * n, false)]),
                         o.memory + HEADER_SIZE, Success)
      else
        PoolIndexIsSmallest(total);
        match AllocIndex(h, PoolIndex(total))
        case None => PoolOutcome(h, 0, OutOfResources)
        case Some(t) => PoolOutcome(t.heap, t.block + HEADER_SIZE, Success)
  }

  /** The list a block of this size belongs to. */
  function FreeIndex(size: nat): int
    requires 0 < size
  {
    HighBitSet(size) - MIN_POOL_SHIFT
  }

  /** The condition of every ASSERT on the free path. */
  ghost predicate FreeAssertsHold(h: Heap, block: nat) {
    && block in h.headers && !h.headers[block].available
    && var size := h.headers[block].size;
       if size > MAX_POOL_SIZE then Aligned(block) && Aligned(size)
       else size >= MIN_POOL_SIZE && IsPowerOfTwo(size) && block % size == 0 && FreeIndex(size) < CLASSES
  }

  function FreePool(h: Heap, buffer: nat): (Heap, Status)
    requires |h.pools| == CLASSES
    requires buffer != 0 ==> buffer >= HEADER_SIZE && FreeAssertsHold(h, buffer - HEADER_SIZE)
  {
    if buffer == 0 then (h, InvalidParameter)
    else
      var b := buffer - HEADER_SIZE;
      var size := h.headers[b].size;
      if size > MAX_POOL_SIZE then
        var (l, status) := FreePages(h.nodes, b, SizeToPages(size));
        (h.(nodes := l), status)
      else
        HighBitBounds(size);
        ClassOfSize(size);
        var i := FreeIndex(size);
        (h.(pools := h.pools[i := [b] + h.pools[i]], headers := h.headers[b := Header(size, true)]), Success)
  }

  // ----- Block sizes

  lemma BlockSizes(i: nat)
    ensures BlockSize(i + 1) == 2 * BlockSize(i) && BlockSize(i) >= MIN_POOL_SIZE
    ensures BlockSize(0) == 64 && BlockSize(5) == MAX_POOL_SIZE && BlockSize(CLASSES) == PAGE_SIZE
  {
    assert Pow2(1) == 2 && Pow2(2) == 4 && Pow2(3) == 8 && Pow2(4) == 16 && Pow2(5) == 32 && Pow2(6) == 64;
  }

  lemma BlockSizeMonotone(i: nat, j: nat)
    requires i <= j
    ensures BlockSize(i) <= BlockSize(j)
  {
    Pow2Monotone(i, j);
  }

  lemma ClassOfSize(size: nat)
    requires MIN_POOL_SIZE <= size && IsPowerOfTwo(size)
    ensures FreeIndex(size) >= 0 && BlockSize(FreeIndex(size)) == size
  {
    var k := HighBitSet(size);
    assert Pow2(6) == MIN_POOL_SIZE;
    assert k >= 6 by {
      assert Pow2(5) == 32;
      if k < 6 {
        Pow2Monotone(k, 5);
      }
    }
    Pow2Sum(6, k - 6);
  }

  lemma SizeOfClass(i: nat)
    ensures BlockSize(i) == Pow2(i + 6) && HighBitSet(BlockSize(i)) == i + 6
    ensures IsPowerOfTwo(BlockSize(i)) && FreeIndex(BlockSize(i)) == i
  {
    Pow2Sum(6, i);
    assert Pow2(6) == 64;
    HighBitOfPower(i + 6);
  }

  /** The class chosen is the smallest whose blocks hold the request and its header. */
  lemma PoolIndexIsSmallest(size: nat)
    requires 0 < size <= MAX_POOL_SIZE
    ensures PoolIndex(size) < CLASSES && IsSmallestClass(PoolIndex(size), size)
  {
    var units := (size + MIN_POOL_SIZE - 1) / MIN_POOL_SIZE;
    var k := HighBitSet(units);
    var i := PoolIndex(size);
    HighBitBounds(units);
    BlockSizes(k);
    assert BlockSize(i) >= MIN_POOL_SIZE * units >= size;
    forall j: nat | j < i ensures BlockSize(j) < size {
      BlockSizeMonotone(j, i - 1);
      BlockSizes(i - 1);
    }
    BlockSizes(0);
  }
}
