/** The free-page list of the secure partition allocator, as values.

    A node of the list lives at the address of the memory it describes, so a node is a base address
    and a page count. The functions here give the result of each list operation, with every UINTN
    expression reduced modulo 2^64 exactly where the 64-bit code would; the lemmas say what those
    results mean in terms of which bytes are free. `PageMap` holds the in-place form.
 */
module Pages {

  const PAGE_SIZE: nat := 4096
  const ADDRESS_LIMIT: nat := 0x1_0000_0000_0000_0000
  const MAX_PAGES: nat := 0x10_0000_0000_0000

  /** The all-ones address, which the code uses both as "no limit" and as "not found". */
  const ALL_ONES: nat := ADDRESS_LIMIT - 1

  datatype Node = Node(base: nat, pages: nat) {
    function End(): nat {
      base + PAGE_SIZE * pages
    }
  }

  datatype Status = Success | InvalidParameter | OutOfResources | NotFound

  datatype AllocateType = AnyPages | MaxAddress | Address | OtherType

  datatype MemoryType = RuntimeServicesCode | RuntimeServicesData | OtherMemory

  datatype Outcome = Outcome(nodes: seq<Node>, memory: nat, status: Status)

  // ----- 64-bit arithmetic

  function Wrap(x: int): (r: nat)
    ensures r < ADDRESS_LIMIT
    ensures 0 <= x < ADDRESS_LIMIT ==> r == x
    ensures -(ADDRESS_LIMIT as int) <= x < 0 ==> r == x + ADDRESS_LIMIT
    ensures ADDRESS_LIMIT <= x < 2 * ADDRESS_LIMIT ==> r == x - ADDRESS_LIMIT
  {
    x % ADDRESS_LIMIT
  }

  function PagesToSize(n: nat): nat {
    Wrap(PAGE_SIZE * n)
  }

  function TruncateToPages(a: nat): nat {
    a / PAGE_SIZE
  }

  predicate Aligned(a: int) {
    a % PAGE_SIZE == 0
  }

  // ----- What a list means

  predicate Holds(p: Node, a: int) {
    p.base <= a < p.End()
  }

  ghost predicate FreeAt(l: seq<Node>, a: int) {
    exists i :: 0 <= i < |l| && Holds(l[i], a)
  }

  predicate InRange(a: int, base: int, n: nat) {
    base <= a < base + PAGE_SIZE * n
  }

  predicate ValidNode(p: Node) {
    0 < p.base && Aligned(p.base) && 0 < p.pages && p.End() < ADDRESS_LIMIT
  }

  /** Strictly ascending, no empty node, and a gap between any two nodes. */
  ghost predicate Canonical(l: seq<Node>) {
    && (forall i :: 0 <= i < |l| ==> ValidNode(l[i]))
    && (forall i, j :: 0 <= i < j < |l| ==> l[i].End() < l[j].base)
  }

  ghost predicate AllFree(l: seq<Node>, base: int, n: nat) {
    forall a :: InRange(a, base, n) ==> FreeAt(l, a)
  }

  ghost predicate NoneFree(l: seq<Node>, base: int, n: nat) {
    forall a :: InRange(a, base, n) ==> !FreeAt(l, a)
  }

  /** `l'` is `l` with exactly the bytes of the range gone. */
  ghost predicate Removes(l: seq<Node>, l': seq<Node>, base: int, n: nat) {
    forall a :: FreeAt(l', a) <==> FreeAt(l, a) && !InRange(a, base, n)
  }

  /** `l'` is `l` with exactly the bytes of the range added. */
  ghost predicate Adds(l: seq<Node>, l': seq<Node>, base: int, n: nat) {
    forall a :: FreeAt(l', a) <==> FreeAt(l, a) || InRange(a, base, n)
  }

  /** A range of at least one page, above address zero and ending below the top. */
  predicate ProperRange(memory: nat, n: nat) {
    0 < memory && 1 <= n && memory + PAGE_SIZE * n < ADDRESS_LIMIT
  }

  /** An address that could serve a request for `n` pages ending at or below `max`. */
  ghost predicate Candidate(l: seq<Node>, y: int, n: nat, max: int) {
    Aligned(y) && y + PAGE_SIZE * n - 1 <= max && AllFree(l, y, n)
  }

  // ----- Allocation

  function AllocOnNode(l: seq<Node>, i: nat, n: nat, max: nat): (seq<Node>, nat)
    requires i < |l|
  {
    var p := l[i];
    var room := TruncateToPages(Wrap(max + 1 - p.base));
    var top := if room > p.pages then p.pages else room;
    var bottom := Wrap(top - n);
    var upper := if top < p.pages then [Node(Wrap(p.base + PagesToSize(top)), p.pages - top)] else [];
    var lower := if bottom > 0 then [Node(p.base, bottom)] else [];
    (l[..i] + lower + upper + l[i + 1..], Wrap(p.base + PagesToSize(bottom)))
  }

  predicate Fits(p: Node, n: nat, max: nat) {
    p.pages >= n && Wrap(p.base + PagesToSize(n) - 1) <= max
  }

  /** The last of the first `k` nodes that fits, or -1. */
  function LastFitBefore(l: seq<Node>, n: nat, max: nat, k: nat): (i: int)
    requires k <= |l|
    ensures -1 <= i < k
    ensures i >= 0 ==> Fits(l[i], n, max)
    ensures forall j :: i < j < k ==> !Fits(l[j], n, max)
  {
    if k == 0 then -1
    else if Fits(l[k - 1], n, max) then k - 1
    else LastFitBefore(l, n, max, k - 1)
  }

  function LastFit(l: seq<Node>, n: nat, max: nat): (i: int)
    ensures -1 <= i < |l| && (i >= 0 ==> Fits(l[i], n, max))
    ensures forall j :: i < j < |l| ==> !Fits(l[j], n, max)
  {
    LastFitBefore(l, n, max, |l|)
  }

  function AllocBelow(l: seq<Node>, n: nat, max: nat): (seq<Node>, nat) {
    var i := LastFit(l, n, max);
    if i < 0 then (l, ALL_ONES) else AllocOnNode(l, i, n, max)
  }

  /** The last of the first `k` nodes that starts at or below `addr`, or -1. */
  function LastStartBefore(l: seq<Node>, addr: nat, k: nat): (i: int)
    requires k <= |l|
    ensures -1 <= i < k
    ensures i >= 0 ==> l[i].base <= addr
    ensures forall j :: i < j < k ==> l[j].base > addr
  {
    if k == 0 then -1
    else if l[k - 1].base <= addr then k - 1
    else LastStartBefore(l, addr, k - 1)
  }

  function LastAtOrBelow(l: seq<Node>, addr: nat): (i: int)
    ensures -1 <= i < |l| && (i >= 0 ==> l[i].base <= addr)
    ensures forall j :: i < j < |l| ==> l[j].base > addr
  {
    LastStartBefore(l, addr, |l|)
  }

  /** The guard of line 133: the one node looked at ends before the (wrapped) end of the request. */
  predicate StopsShort(l: seq<Node>, n: nat, addr: nat) {
    var i := LastAtOrBelow(l, addr);
    i < 0 || Wrap(l[i].base + PagesToSize(l[i].pages)) < Wrap(addr + PagesToSize(n))
  }

  function AllocAt(l: seq<Node>, n: nat, addr: nat): (seq<Node>, nat)
    requires addr < ADDRESS_LIMIT
  {
    if !Aligned(addr) || StopsShort(l, n, addr) then (l, ALL_ONES - addr)
    else AllocOnNode(l, LastAtOrBelow(l, addr), n, Wrap(addr + PagesToSize(n)))
  }

  function AllocatePages(l: seq<Node>, t: AllocateType, m: MemoryType, n: nat, memory: nat): Outcome
    requires memory < ADDRESS_LIMIT
  {
    if m == OtherMemory then Outcome(l, memory, InvalidParameter)
    else if n > MAX_PAGES then Outcome(l, memory, OutOfResources)
    else match t
      case OtherType => Outcome(l, memory, InvalidParameter)
      case Address =>
        var (l', a) := AllocAt(l, n, memory);
        Outcome(l', a, if a != memory then NotFound else Success)
      case _ =>
        var (l', a) := AllocBelow(l, n, if t == AnyPages then ALL_ONES else memory);
        Outcome(l', a, if a == ALL_ONES then OutOfResources else Success)
  }

  // ----- Release

  /** The first node from `k` on that starts above `memory`, or the length of the list. */
  function FirstAboveFrom(l: seq<Node>, memory: nat, k: nat): (i: nat)
    requires k <= |l|
    ensures k <= i <= |l|
    ensures forall j :: k <= j < i ==> l[j].base <= memory
    ensures i < |l| ==> memory < l[i].base
    decreases |l| - k
  {
    if k == |l| || memory < l[k].base then k else FirstAboveFrom(l, memory, k + 1)
  }

  function FirstAbove(l: seq<Node>, memory: nat): (k: nat)
    ensures k <= |l| && (k < |l| ==> memory < l[k].base)
    ensures forall j :: 0 <= j < k ==> l[j].base <= memory
  {
    FirstAboveFrom(l, memory, 0)
  }

  /** Joins node `i` with its successor when they touch; also gives the index to go on from. */
  function Merge(l: seq<Node>, i: nat): (seq<Node>, nat)
    requires i + 1 < |l|
  {
    if TruncateToPages(Wrap(l[i + 1].base - l[i].base)) == l[i].pages
    then (l[..i] + [Node(l[i].base, Wrap(l[i].pages + l[i + 1].pages))] + l[i + 2..], i)
    else (l, i + 1)
  }

  /** The two neighbour tests of lines 313-324. */
  predicate Refused(l: seq<Node>, memory: nat, n: nat) {
    var k := FirstAbove(l, memory);
    || (k < |l| && Wrap(memory + PagesToSize(n)) > l[k].base)
    || (k > 0 && Wrap(l[k - 1].base + PagesToSize(l[k - 1].pages)) > memory)
  }

  /** The list with the freed range inserted and joined to the node below, if they touch, and the index
      to go on from. */
  function JoinDown(l: seq<Node>, memory: nat, n: nat): (r: (seq<Node>, nat))
    ensures r.1 + (|l| - FirstAbove(l, memory)) == |r.0| - 1
  {
    var k := FirstAbove(l, memory);
    var inserted := l[..k] + [Node(memory, n)] + l[k..];
    if k > 0 then Merge(inserted, k - 1) else (inserted, k)
  }

  function Insert(l: seq<Node>, memory: nat, n: nat): seq<Node> {
    var (joined, i) := JoinDown(l, memory, n);
    if i + 1 < |joined| then Merge(joined, i).0 else joined
  }

  /** The ASSERT at the start of a merge. */
  predicate MergeAssert(l: seq<Node>, i: nat)
    requires i + 1 < |l|
  {
    TruncateToPages(Wrap(l[i + 1].base - l[i].base)) >= l[i].pages
  }

  /** That ASSERT holds at every merge a free comes to. */
  predicate FreeAsserts(l: seq<Node>, memory: nat, n: nat) {
    Aligned(memory) && !Refused(l, memory, n) ==>
      var k := FirstAbove(l, memory);
      var (joined, i) := JoinDown(l, memory, n);
      && (k > 0 ==> MergeAssert(l[..k] + [Node(memory, n)] + l[k..], k - 1))
      && (i + 1 < |joined| ==> MergeAssert(joined, i))
  }

  function FreePages(l: seq<Node>, memory: nat, n: nat): (seq<Node>, Status) {
    if !Aligned(memory) || Refused(l, memory, n) then (l, InvalidParameter)
    else (Insert(l, memory, n), Success)
  }

  // ----- A canonical list is the only one for its bytes

  lemma HolderIsUnique(l: seq<Node>, i: nat, j: nat, a: int)
    requires Canonical(l) && i < |l| && j < |l| && Holds(l[i], a) && Holds(l[j], a)
    ensures i == j
  {
  }

  lemma EndIsNotFree(l: seq<Node>, i: nat)
    requires Canonical(l) && i < |l|
    ensures !FreeAt(l, l[i].End()) && !FreeAt(l, l[i].base - 1)
  {
  }

  ghost predicate SameBytes(l: seq<Node>, m: seq<Node>) {
    forall a :: FreeAt(l, a) <==> FreeAt(m, a)
  }

  lemma FirstBaseIsLeast(l: seq<Node>, a: int)
    requires Canonical(l) && FreeAt(l, a)
    ensures l != [] && l[0].base <= a
  {
  }

  lemma FirstNodeAgrees(l: seq<Node>, m: seq<Node>)
    requires Canonical(l) && Canonical(m) && SameBytes(l, m) && l != []
    ensures m != [] && l[0].base == m[0].base && l[0].pages <= m[0].pages
  {
    assert Holds(l[0], l[0].base);
    assert FreeAt(m, l[0].base);
    FirstBaseIsLeast(m, l[0].base);
    assert Holds(m[0], m[0].base);
    assert FreeAt(l, m[0].base);
    FirstBaseIsLeast(l, m[0].base);
    if m[0].pages < l[0].pages {
      assert Holds(l[0], m[0].End());
      EndIsNotFree(m, 0);
    }
  }

  lemma TailBytes(l: seq<Node>, a: int)
    requires Canonical(l) && l != []
    ensures Canonical(l[1..])
    ensures FreeAt(l[1..], a) <==> FreeAt(l, a) && !Holds(l[0], a)
  {
    if FreeAt(l, a) && !Holds(l[0], a) {
      var i :| 0 <= i < |l| && Holds(l[i], a);
      assert Holds(l[1..][i - 1], a);
    }
    if FreeAt(l[1..], a) {
      var i :| 0 <= i < |l[1..]| && Holds(l[1..][i], a);
      assert Holds(l[i + 1], a);
    }
  }

  /** The list is determined by its set of free bytes. */
  lemma {:induction false} CanonicalIsUnique(l: seq<Node>, m: seq<Node>)
    requires Canonical(l) && Canonical(m) && SameBytes(l, m)
    ensures l == m
    decreases |l|
  {
    if l == [] {
      if m != [] {
        FirstNodeAgrees(m, l);
      }
    } else {
      FirstNodeAgrees(l, m);
      FirstNodeAgrees(m, l);
      forall a ensures FreeAt(l[1..], a) <==> FreeAt(m[1..], a) {
        TailBytes(l, a);
        TailBytes(m, a);
      }
      TailBytes(l, 0);
      TailBytes(m, 0);
      CanonicalIsUnique(l[1..], m[1..]);
      assert l == [l[0]] + l[1..];
      assert m == [m[0]] + m[1..];
    }
  }

  /** A run of free bytes never crosses from one node into another. */
  lemma RunLiesInOneNode(l: seq<Node>, base: int, n: nat, i: nat)
    requires Canonical(l) && i < |l| && n >= 1
    requires AllFree(l, base, n) && Holds(l[i], base)
    ensures base + PAGE_SIZE * n <= l[i].End()
  {
    if base + PAGE_SIZE * n > l[i].End() {
      assert InRange(l[i].End(), base, n);
      EndIsNotFree(l, i);
    }
  }

  // ----- Replacing a stretch of the list

  function Splice(l: seq<Node>, i: nat, w: nat, xs: seq<Node>): seq<Node>
    requires i + w <= |l|
  {
    l[..i] + xs + l[i + w..]
  }

  lemma FreeAtConcat(l: seq<Node>, m: seq<Node>, a: int)
    ensures FreeAt(l + m, a) <==> FreeAt(l, a) || FreeAt(m, a)
  {
    if FreeAt(l, a) {
      var i :| 0 <= i < |l| && Holds(l[i], a);
      assert Holds((l + m)[i], a);
    }
    if FreeAt(m, a) {
      var i :| 0 <= i < |m| && Holds(m[i], a);
      assert Holds((l + m)[|l| + i], a);
    }
  }

  lemma SpliceBytes(l: seq<Node>, i: nat, w: nat, xs: seq<Node>, a: int)
    requires Canonical(l) && i + w <= |l|
    ensures FreeAt(Splice(l, i, w, xs), a) <==> FreeAt(xs, a) || (FreeAt(l, a) && !FreeAt(l[i..i + w], a))
  {
    var left, mid, right := l[..i], l[i..i + w], l[i + w..];
    assert l == left + mid + right;
    FreeAtConcat(left + mid, right, a);
    FreeAtConcat(left, mid, a);
    FreeAtConcat(left + xs, right, a);
    FreeAtConcat(left, xs, a);
  }

  lemma SpliceKeepsCanonical(l: seq<Node>, i: nat, w: nat, xs: seq<Node>)
    requires Canonical(l) && Canonical(xs) && i + w <= |l|
    requires forall k :: 0 <= k < |xs| ==>
      && (i > 0 ==> l[i - 1].End() < xs[k].base)
      && (i + w < |l| ==> xs[k].End() < l[i + w].base)
    ensures Canonical(Splice(l, i, w, xs))
  {
    var left, right := l[..i], l[i + w..];
    assert Canonical(left) && Canonical(right);
    CanonicalConcat(left, xs);
    if xs == [] {
      assert left + xs == left;
    }
    CanonicalConcat(left + xs, right);
  }

  lemma CanonicalConcat(l: seq<Node>, m: seq<Node>)
    requires Canonical(l) && Canonical(m) && (l != [] && m != [] ==> l[|l| - 1].End() < m[0].base)
    ensures Canonical(l + m)
  {
    var c := l + m;
    forall i, j | 0 <= i < j < |c| ensures c[i].End() < c[j].base {
      if i < |l| <= j {
        assert c[i] == l[i] && c[j] == m[j - |l|];
        assert l[i].End() <= l[|l| - 1].End() && m[0].base <= m[j - |l|].base by {
          assert ValidNode(l[|l| - 1]) && ValidNode(m[0]);
        }
      }
    }
  }

  // ----- Carving a range out of one node

  /** What is left of node `p` once the range is taken out. */
  function Remains(p: Node, base: nat, n: nat): seq<Node>
    requires p.base <= base && base + PAGE_SIZE * n <= p.End()
  {
    var below := (base - p.base) / PAGE_SIZE;
    var lower := if below > 0 then [Node(p.base, below)] else [];
    var upper := if below + n < p.pages
                 then [Node(base + PAGE_SIZE * n, p.pages - below - n)] else [];
    lower + upper
  }

  lemma RemainsShape(p: Node, base: nat, n: nat)
    requires ValidNode(p) && Aligned(base) && n >= 1
    requires p.base <= base && base + PAGE_SIZE * n <= p.End()
    ensures Canonical(Remains(p, base, n))
    ensures forall q :: q in Remains(p, base, n) ==> p.base <= q.base && q.End() <= p.End()
  {
    assert base == p.base + PAGE_SIZE * ((base - p.base) / PAGE_SIZE);
  }

  lemma RemainsBytes(p: Node, base: nat, n: nat, a: int)
    requires ValidNode(p) && Aligned(base) && n >= 1
    requires p.base <= base && base + PAGE_SIZE * n <= p.End()
    ensures Canonical(Remains(p, base, n))
    ensures forall q :: q in Remains(p, base, n) ==> p.base <= q.base && q.End() <= p.End()
    ensures FreeAt(Remains(p, base, n), a) <==> Holds(p, a) && !InRange(a, base, n)
  {
    RemainsShape(p, base, n);
    RemainsHold(p, base, n, a);
  }

  lemma RemainsHold(p: Node, base: nat, n: nat, a: int)
    requires ValidNode(p) && Aligned(base) && n >= 1
    requires p.base <= base && base + PAGE_SIZE * n <= p.End()
    ensures FreeAt(Remains(p, base, n), a) <==> Holds(p, a) && !InRange(a, base, n)
  {
    var below := (base - p.base) / PAGE_SIZE;
    assert base == p.base + PAGE_SIZE * below;
    var lower := if below > 0 then [Node(p.base, below)] else [];
    var upper := if below + n < p.pages
                 then [Node(base + PAGE_SIZE * n, p.pages - below - n)] else [];
    FreeAtConcat(lower, upper, a);
    FreeAtOne(Node(p.base, below), a);
    if below + n < p.pages {
      FreeAtOne(Node(base + PAGE_SIZE * n, p.pages - below - n), a);
    }
    hide FreeAt, ValidNode;
    assert FreeAt(lower, a) <==> Holds(Node(p.base, below), a);
    assert FreeAt(upper, a) <==> base + PAGE_SIZE * n <= a < p.End();
  }

  lemma FreeAtOne(p: Node, a: int)
    ensures FreeAt([p], a) <==> Holds(p, a)
    ensures !FreeAt([], a)
  {
    assert Holds([p][0], a) == Holds(p, a);
  }

  lemma CarveMeaning(l: seq<Node>, i: nat, base: nat, n: nat)
    requires Canonical(l) && i < |l| && n >= 1 && Aligned(base)
    requires l[i].base <= base && base + PAGE_SIZE * n <= l[i].End()
    ensures var c := Splice(l, i, 1, Remains(l[i], base, n));
            Canonical(c) && Removes(l, c, base, n)
  {
    hide Remains;
    var r := Remains(l[i], base, n);
    RemainsBytes(l[i], base, n, 0);
    forall k | 0 <= k < |r|
      ensures (i > 0 ==> l[i - 1].End() < r[k].base) && (i + 1 < |l| ==> r[k].End() < l[i + 1].base)
    {
      assert r[k] in r;
    }
    SpliceKeepsCanonical(l, i, 1, r);
    forall a ensures FreeAt(Splice(l, i, 1, r), a) <==> FreeAt(l, a) && !InRange(a, base, n) {
      RemainsBytes(l[i], base, n, a);
      SpliceBytes(l, i, 1, r, a);
      assert l[i..i + 1] == [l[i]];
      OneNodeBytes(l, i, a);
    }
  }

  lemma OneNodeBytes(l: seq<Node>, i: nat, a: int)
    requires i < |l|
    ensures FreeAt([l[i]], a) <==> Holds(l[i], a)
    ensures Holds(l[i], a) ==> FreeAt(l, a)
  {
    assert Holds([l[i]][0], a) == Holds(l[i], a);
  }
}
