/** Passing a command to the TPM and fetching its response, over a CRB or over a FIFO.

    Every register read and every yield is an outcome given from outside, in the order the code asks
    for them. The FIFO moves bytes in bursts: before each burst the TPM announces how many bytes it
    will take or give. The TPM itself is a function from the command bytes it received to its
    response bytes.
 */
module TpmTransfer {

  type Byte = bv8
  type Device = (seq<Byte>, nat) -> Byte

  datatype Status = Success | Timeout | YieldError

  const YIELD_AMOUNT: nat := 10_000
  const TIMEOUT_C: nat := 200_000
  const TIMEOUT_D: nat := 30_000
  const TIMEOUT_MAX: nat := 90_000_000

  // Status bits of the PTP FIFO interface, and the start bit of the CRB.
  const STS_VALID: bv32 := 0x80
  const STS_DATA: bv32 := 0x10
  const STS_EXPECT: bv32 := 0x08
  const STS_ANSWERED: bv32 := STS_VALID | STS_DATA
  const CRB_START: bv32 := 1

  // ----- Polling

  /** One wait: `good(k)` says whether the k-th read is as wanted, `resumes(k)` whether the k-th yield
      succeeds. */
  datatype Wait = Wait(good: nat -> bool, resumes: nat -> bool)

  /** The successive reads of a register, and the yields between them. */
  datatype Polls = Polls(read: nat -> bv32, resumes: nat -> bool)

  /** The test of a register: all of `ones` set, all of `zeroes` clear. */
  predicate BitsMatch(x: bv32, ones: bv32, zeroes: bv32) {
    x & ones == ones && x & zeroes == 0
  }

  /** The wait for the bits `ones` to be set and the bits `zeroes` to be clear. */
  function BitWait(p: Polls, ones: bv32, zeroes: bv32): Wait {
    Wait((k: nat) => BitsMatch(p.read(k), ones, zeroes), p.resumes)
  }

  /** The outcome of a wait from its k-th poll on. */
  function WaitFrom(w: Wait, timeout: nat, k: nat): Status
    decreases timeout - YIELD_AMOUNT * k
  {
    if w.good(k) then Success
    else if YIELD_AMOUNT * k >= timeout then Timeout
    else if !w.resumes(k) then YieldError
    else WaitFrom(w, timeout, k + 1)
  }

  /** Polls 0 up to `k` - 1 found nothing, were allowed to go on, and yielded without error. */
  ghost predicate Reached(w: Wait, timeout: nat, k: nat) {
    forall j: nat :: j < k ==> !w.good(j) && w.resumes(j) && YIELD_AMOUNT * j < timeout
  }

  /** Poll `k` is the one that ends the wait. */
  ghost predicate Decides(w: Wait, timeout: nat, k: nat) {
    Reached(w, timeout, k) && (w.good(k) || YIELD_AMOUNT * k >= timeout || !w.resumes(k))
  }

  /** A wait ends at exactly one poll. */
  lemma OnePollDecides(w: Wait, timeout: nat, k: nat, j: nat)
    requires Decides(w, timeout, k) && Decides(w, timeout, j)
    ensures j == k
  {
  }

  /** Every wait is decided by some poll, and that poll gives its outcome. */
  lemma {:induction false} PollDecides(w: Wait, timeout: nat, k: nat) returns (n: nat)
    requires Reached(w, timeout, k)
    ensures Decides(w, timeout, n)
    ensures WaitFrom(w, timeout, k) ==
              if w.good(n) then Success else if YIELD_AMOUNT * n >= timeout then Timeout else YieldError
    decreases timeout - YIELD_AMOUNT * k
  {
    if w.good(k) || YIELD_AMOUNT * k >= timeout || !w.resumes(k) {
      n := k;
    } else {
      n := PollDecides(w, timeout, k + 1);
    }
  }

  /** The first good read is poll `n`, and every yield before it succeeds. */
  ghost predicate GoodAt(w: Wait, n: nat) {
    w.good(n) && forall j: nat :: j < n ==> !w.good(j) && w.resumes(j)
  }

  /** A wait of `limit` times 10 ms succeeds exactly if one of the first `limit` + 1 reads is good and no yield
      before it fails. */
  lemma WaitSucceedsExactly(w: Wait, timeout: nat, limit: nat)
    requires timeout == 10_000 * limit
    ensures WaitFrom(w, timeout, 0) == Success <==> exists n: nat :: n <= limit && GoodAt(w, n)
  {
    var k := PollDecides(w, timeout, 0);
    if n: nat :| n <= limit && GoodAt(w, n) {
      assert Decides(w, timeout, n);
      OnePollDecides(w, timeout, k, n);
    }
    if w.good(k) {
      assert k > 0 ==> YIELD_AMOUNT * (k - 1) < timeout;
      assert GoodAt(w, k);
    }
  }

  /** The polling loop of WaitRegisterBits. Success, yield error and timeout are told apart by the one
      poll that decides: a read with the wanted bits, a failed yield in time, or neither by the time
      limit. */
  method WaitRegisterBits(p: Polls, ones: bv32, zeroes: bv32, timeout: nat) returns (status: Status)
    ensures status == WaitFrom(BitWait(p, ones, zeroes), timeout, 0)
    ensures exists k: nat :: Decides(BitWait(p, ones, zeroes), timeout, k)
    ensures forall k: nat :: Decides(BitWait(p, ones, zeroes), timeout, k) ==>
              var good := BitsMatch(p.read(k), ones, zeroes);
              && (status == Success <==> good)
              && (status == Timeout <==> !good && YIELD_AMOUNT * k >= timeout)
              && (status == YieldError <==> !good && YIELD_AMOUNT * k < timeout)
  {
    hide BitsMatch;
    ghost var w := BitWait(p, ones, zeroes);
    var delay, k: nat := 0, 0;
    while true
      invariant delay == YIELD_AMOUNT * k && Reached(w, timeout, k)
      invariant WaitFrom(w, timeout, 0) == WaitFrom(w, timeout, k)
      decreases timeout - delay
    {
      if BitsMatch(p.read(k), ones, zeroes) {
        status := Success;
        break;
      }
      if delay >= timeout {
        status := Timeout;
        break;
      }
      if !p.resumes(k) {
        status := YieldError;
        break;
      }
      delay := delay + YIELD_AMOUNT;
      k := k + 1;
    }
    assert Decides(w, timeout, k);
    forall j: nat | Decides(w, timeout, j) ensures j == k {
      OnePollDecides(w, timeout, k, j);
    }
  }

  // ----- Burst counts

  /** One read of the burst count: its two bytes at each poll, and the yields between polls. */
  datatype BurstRead = BurstRead(low: nat -> Byte, high: nat -> Byte, resumes: nat -> bool)

  function Count(low: Byte, high: Byte): nat {
    (high as nat) * 256 + low as nat
  }

  lemma CountBytes(low: Byte, high: Byte)
    ensures Count(low, high) % 256 == low as nat && Count(low, high) / 256 == high as nat
    ensures Count(low, high) == 256 * (high as nat) + low as nat
  {
    var l, h := low as nat, high as nat;
    assert l < 256;
    assert Count(low, high) == h * 256 + l;
  }

  function CountWait(b: BurstRead): Wait {
    Wait((k: nat) => Count(b.low(k), b.high(k)) != 0, b.resumes)
  }

  /** The count announced, from the k-th poll on; 0 if none is. */
  function CountFrom(b: BurstRead, k: nat): (c: nat)
    ensures c != 0 <==> WaitFrom(CountWait(b), TIMEOUT_D, k) == Success
    decreases TIMEOUT_D - YIELD_AMOUNT * k
  {
    if Count(b.low(k), b.high(k)) != 0 then Count(b.low(k), b.high(k))
    else if YIELD_AMOUNT * k >= TIMEOUT_D || !b.resumes(k) then 0
    else CountFrom(b, k + 1)
  }

  /** FifoReadBurstCount: the first non-zero count, low byte first, or the reason there is none. */
  method FifoReadBurstCount(b: BurstRead) returns (status: Status, count: nat)
    ensures status == WaitFrom(CountWait(b), TIMEOUT_D, 0) && count == CountFrom(b, 0)
    ensures status == Success <==> count > 0
    ensures forall k: nat :: Decides(CountWait(b), TIMEOUT_D, k) ==>
              && count % 256 == b.low(k) as nat && count / 256 == b.high(k) as nat
              && (status == Timeout <==> count == 0 && YIELD_AMOUNT * k >= TIMEOUT_D)
              && (status == YieldError <==> count == 0 && YIELD_AMOUNT * k < TIMEOUT_D)
  {
    hide Count;
    ghost var w := CountWait(b);
    var delay, k: nat := 0, 0;
    while true
      invariant delay == YIELD_AMOUNT * k && Reached(w, TIMEOUT_D, k)
      invariant WaitFrom(w, TIMEOUT_D, 0) == WaitFrom(w, TIMEOUT_D, k) && CountFrom(b, 0) == CountFrom(b, k)
      decreases TIMEOUT_D - delay
    {
      count := Count(b.low(k), b.high(k));
      if count != 0 {
        status := Success;
        break;
      }
      if delay >= TIMEOUT_D {
        status := Timeout;
        break;
      }
      if !b.resumes(k) {
        status := YieldError;
        break;
      }
      delay := delay + YIELD_AMOUNT;
      k := k + 1;
    }
    assert Decides(w, TIMEOUT_D, k);
    CountBytes(b.low(k), b.high(k));
    forall j: nat | Decides(w, TIMEOUT_D, j) ensures j == k {
      OnePollDecides(w, TIMEOUT_D, k, j);
    }
  }

  /** The count that a burst read ends with is the sixteen-bit number of its two bytes at the deciding poll,
      which is at most the fourth. */
  lemma CountIsAnnounced(b: BurstRead) returns (n: nat)
    ensures Decides(CountWait(b), 30_000, n) && n <= 3
    ensures CountFrom(b, 0) % 256 == b.low(n) as nat && CountFrom(b, 0) / 256 == b.high(n) as nat
  {
    hide Count, CountFrom;
    n := CountDecides(b, 0);
    CountBytes(b.low(n), b.high(n));
  }

  lemma {:induction false} CountDecides(b: BurstRead, k: nat) returns (n: nat)
    requires Reached(CountWait(b), TIMEOUT_D, k) && k <= 3
    ensures Decides(CountWait(b), TIMEOUT_D, n) && n <= 3
    ensures CountFrom(b, k) == Count(b.low(n), b.high(n))
    decreases 3 - k
  {
    if Count(b.low(k), b.high(k)) != 0 || YIELD_AMOUNT * k >= TIMEOUT_D || !b.resumes(k) {
      n := k;
    } else {
      n := CountDecides(b, k + 1);
    }
  }

  // ----- Bursts

  /** The successive burst-count reads of one transfer. */
  type Bursts = nat -> BurstRead

  /** `n` bytes are no more than the two bytes of the burst count announce when it is read. */
  ghost predicate Announced(b: BurstRead, n: nat) {
    exists k: nat :: Decides(CountWait(b), TIMEOUT_D, k) && n <= 256 * (b.high(k) as nat) + b.low(k) as nat
  }

  function Burst(bs: Bursts, k: nat): nat {
    CountFrom(bs(k), 0)
  }

  function Min(a: nat, b: nat): nat {
    if a <= b then a else b
  }

  /** The k-th burst read of a transfer. */
  method ReadBurst(bs: Bursts, k: nat) returns (status: Status, count: nat)
    ensures count == Burst(bs, k) && (status == Success <==> count > 0) && Announced(bs(k), count)
    ensures status == WaitFrom(CountWait(bs(k)), TIMEOUT_D, 0)
  {
    status, count := FifoReadBurstCount(bs(k));
    var n := CountIsAnnounced(bs(k));
  }

  /** How many bytes have moved when the transfer ends, starting at byte `index` and burst `k`. */
  function Moved(bs: Bursts, length: nat, index: nat, k: nat): (n: nat)
    requires index <= length
    ensures index <= n <= length
    decreases length - index
  {
    if index == length || Burst(bs, k) == 0 then index
    else Moved(bs, length, Min(index + Burst(bs, k), length), k + 1)
  }

  /** The status with which the transfer ends: that of the first failed burst read, if any. */
  function TransferStatus(bs: Bursts, length: nat, index: nat, k: nat): (s: Status)
    requires index <= length
    ensures s == Success <==> Moved(bs, length, index, k) == length
    decreases length - index
  {
    if index == length then Success
    else if Burst(bs, k) == 0 then WaitFrom(CountWait(bs(k)), TIMEOUT_D, 0)
    else TransferStatus(bs, length, Min(index + Burst(bs, k), length), k + 1)
  }

  function SumBursts(bs: Bursts, k: nat): nat {
    if k == 0 then 0 else SumBursts(bs, k - 1) + Burst(bs, k - 1)
  }

  /** No burst read fails while bytes are still outstanding. */
  ghost predicate NoFailedRead(bs: Bursts, length: nat) {
    forall k: nat :: SumBursts(bs, k) < length ==> Burst(bs, k) != 0
  }

  lemma {:induction false} SumGrows(bs: Bursts, i: nat, j: nat)
    requires i <= j
    ensures SumBursts(bs, i) <= SumBursts(bs, j)
  {
    if i < j {
      SumGrows(bs, i, j - 1);
    }
  }

  lemma {:induction false} MovedFrom(bs: Bursts, length: nat, index: nat, k: nat)
    requires index == Min(SumBursts(bs, k), length)
    ensures Moved(bs, length, index, k) == length <==>
              forall j: nat :: k <= j && SumBursts(bs, j) < length ==> Burst(bs, j) != 0
    decreases length - index
  {
    hide Burst;
    if index == length {
      forall j: nat | k <= j ensures SumBursts(bs, j) >= length {
        SumGrows(bs, k, j);
      }
    } else if Burst(bs, k) != 0 {
      MovedFrom(bs, length, Min(index + Burst(bs, k), length), k + 1);
    }
  }

  /** A transfer moves every byte exactly when no burst read fails while bytes are outstanding. */
  lemma TransferIsCompleteExactly(bs: Bursts, length: nat)
    ensures Moved(bs, length, 0, 0) == length <==> NoFailedRead(bs, length)
  {
    hide Burst;
    MovedFrom(bs, length, 0, 0);
  }

  /** The burst read that ends a transfer: the first to fail, with bytes still outstanding. */
  ghost predicate FirstFailure(bs: Bursts, length: nat, k: nat) {
    SumBursts(bs, k) < length && Burst(bs, k) == 0 && forall j: nat :: j < k ==> Burst(bs, j) != 0
  }

  lemma {:induction false} FailureFrom(bs: Bursts, length: nat, index: nat, k: nat) returns (n: nat)
    requires index == SumBursts(bs, k) < length && forall j: nat :: j < k ==> Burst(bs, j) != 0
    requires TransferStatus(bs, length, index, k) != Success
    ensures FirstFailure(bs, length, n)
    ensures TransferStatus(bs, length, index, k) == WaitFrom(CountWait(bs(n)), 30_000, 0)
    ensures Moved(bs, length, index, k) == SumBursts(bs, n)
    decreases length - index
  {
    hide Burst, WaitFrom, CountWait;
    if Burst(bs, k) == 0 {
      n := k;
    } else {
      n := FailureFrom(bs, length, index + Burst(bs, k), k + 1);
    }
  }

  /** A transfer that does not succeed stops at the first burst read to fail, with its status, and has moved
      exactly the bytes announced before it. */
  lemma TransferFailsAsItsRead(bs: Bursts, length: nat) returns (n: nat)
    requires TransferStatus(bs, length, 0, 0) != Success
    ensures FirstFailure(bs, length, n)
    ensures TransferStatus(bs, length, 0, 0) == WaitFrom(CountWait(bs(n)), 30_000, 0)
    ensures Moved(bs, length, 0, 0) == SumBursts(bs, n)
  {
    n := FailureFrom(bs, length, 0, 0);
  }

  // ----- Sending the command

  /** The CRB path: a plain copy, byte by byte. */
  method CopyCommandCrb(buffer: array<Byte>, length: nat) returns (received: seq<Byte>)
    requires length <= buffer.Length
    ensures received == buffer[..length]
  {
    received := [];
    for index := 0 to length
      invariant received == buffer[..index]
    {
      received := received + [buffer[index]];
    }
  }

  /** One burst of the command: as many bytes as announced, or as are left. */
  method SendBurst(buffer: array<Byte>, sent: seq<Byte>, start: nat, length: nat, burst: nat)
    returns (received: seq<Byte>, index: nat)
    requires start <= length <= buffer.Length && sent == buffer[..start]
    ensures index == Min(start + burst, length) && received == buffer[..index]
  {
    var count := burst;
    received, index := sent, start;
    while count > 0 && index < length
      invariant start <= index <= length && received == buffer[..index]
      invariant 0 <= count <= burst && index == start + burst - count
      decreases count
    {
      received := received + [buffer[index]];
      index := index + 1;
      count := count - 1;
    }
  }

  /** The FIFO path. The bytes go out in order, no burst is overrun, and what arrives is the part
      that `Moved` says. The status of a failed burst read is overwritten by the final wait, so the
      call reports only that. */
  method CopyCommandFifo(buffer: array<Byte>, length: nat, bs: Bursts, accepted: Polls)
    returns (received: seq<Byte>, ghost chunks: seq<nat>, status: Status)
    requires length <= buffer.Length
    ensures received == buffer[..Moved(bs, length, 0, 0)]
    ensures forall k :: 0 <= k < |chunks| ==> 0 < chunks[k] && Announced(bs(k), chunks[k])
    ensures |received| == Sum(chunks)
    ensures status == WaitFrom(BitWait(accepted, STS_VALID, STS_EXPECT), TIMEOUT_C, 0)
  {
    hide WaitFrom, Burst, CountWait, Announced;
    received := [];
    chunks := [];
    var index, k: nat := 0, 0;
    while index < length
      invariant index <= length && received == buffer[..index]
      invariant k == |chunks| && Sum(chunks) == index
      invariant forall j :: 0 <= j < |chunks| ==> 0 < chunks[j] && Announced(bs(j), chunks[j])
      invariant Moved(bs, length, 0, 0) == Moved(bs, length, index, k)
    {
      var read, count := ReadBurst(bs, k);
      if read != Success {
        break;
      }
      ghost var first := index;
      received, index := SendBurst(buffer, received, index, length, count);
      SumAppend(chunks, index - first);
      FewerAreAnnounced(bs(k), count, index - first);
      chunks := chunks + [index - first];
      k := k + 1;
    }
    status := WaitRegisterBits(accepted, STS_VALID, STS_EXPECT, TIMEOUT_C);
  }

  lemma FewerAreAnnounced(b: BurstRead, n: nat, m: nat)
    requires Announced(b, n) && m <= n
    ensures Announced(b, m)
  {
  }

  ghost function Sum(xs: seq<nat>): nat {
    if xs == [] then 0 else xs[0] + Sum(xs[1..])
  }

  lemma {:induction false} SumAppend(xs: seq<nat>, x: nat)
    ensures Sum(xs + [x]) == Sum(xs) + x
  {
    if xs == [] {
      assert xs + [x] == [x];
      assert [x][1..] == [];
    } else {
      SumAppend(xs[1..], x);
      assert (xs + [x])[1..] == xs[1..] + [x];
    }
  }

  // ----- Fetching the response

  /** The first `n` bytes of the response to a command. */
  function Response(device: Device, command: seq<Byte>, n: nat): (r: seq<Byte>)
    ensures |r| == n
  {
    seq(n, i requires 0 <= i < n => device(command, i))
  }

  method CopyResponseCrb(buffer: array<Byte>, length: nat, device: Device, command: seq<Byte>)
    requires length <= buffer.Length
    modifies buffer
    ensures buffer[..] == Response(device, command, length) + old(buffer[length..])
  {
    var index := 0;
    while index < length
      invariant index <= length
      invariant forall i :: 0 <= i < index ==> buffer[i] == device(command, i)
      invariant forall i :: index <= i < buffer.Length ==> buffer[i] == old(buffer[i])
    {
      buffer[index] := device(command, index);
      index := index + 1;
    }
  }

  /** One burst of the response; it stops at the last byte asked for. */
  method FetchBurst(buffer: array<Byte>, start: nat, length: nat, burst: nat, device: Device, command: seq<Byte>)
    returns (index: nat)
    requires start < length && burst > 0 && Min(start + burst, length) <= buffer.Length
    modifies buffer
    ensures index == Min(start + burst, length)
    ensures forall i :: start <= i < index ==> buffer[i] == device(command, i)
    ensures forall i :: 0 <= i < start || index <= i < buffer.Length ==> buffer[i] == old(buffer[i])
  {
    var count := burst;
    index := start;
    while count > 0
      invariant start <= index < length && 0 <= count <= burst && index == start + burst - count
      invariant index <= buffer.Length
      invariant forall i :: start <= i < index ==> buffer[i] == device(command, i)
      invariant forall i :: 0 <= i < start || index <= i < buffer.Length ==> buffer[i] == old(buffer[i])
    {
      buffer[index] := device(command, index);
      index := index + 1;
      count := count - 1;
      if index == length {
        break;
      }
    }
  }

  /** The FIFO path: fills the buffer in order, and reports the first failed burst read, if any. With no
      bytes to fetch the status is never assigned: `stale` is what it happens to be. */
  method CopyResponseFifo(
      buffer: array<Byte>, length: nat, device: Device, command: seq<Byte>, bs: Bursts, stale: Status)
    returns (status: Status)
    requires Moved(bs, length, 0, 0) <= buffer.Length
    modifies buffer
    ensures status == if length == 0 then stale else TransferStatus(bs, length, 0, 0)
    ensures length > 0 ==> (status == Success <==> NoFailedRead(bs, length))
    ensures var n := Moved(bs, length, 0, 0);
            buffer[..] == Response(device, command, n) + old(buffer[n..])
  {
    hide WaitFrom, Burst, CountWait, NoFailedRead;
    TransferIsCompleteExactly(bs, length);
    status := stale;
    var index, k: nat := 0, 0;
    while index < length
      invariant index <= length && index <= buffer.Length && (0 < index == length ==> status == Success)
      invariant index == 0 ==> status == stale
      invariant Moved(bs, length, 0, 0) == Moved(bs, length, index, k)
      invariant TransferStatus(bs, length, 0, 0) == TransferStatus(bs, length, index, k)
      invariant forall i :: 0 <= i < index ==> buffer[i] == device(command, i)
      invariant forall i :: index <= i < buffer.Length ==> buffer[i] == old(buffer[i])
    {
      var count;
      status, count := ReadBurst(bs, k);
      if status != Success {
        break;
      }
      index := FetchBurst(buffer, index, length, count, device, command);
      k := k + 1;
    }
  }

  // ----- A whole command

  /** Everything the FIFO path reads on the way: the bursts of both transfers, the wait for the TPM
      to accept the command, the wait for it to finish, and the unassigned status of an empty
      response. */
  datatype Link = Link(command: Bursts, response: Bursts, accepted: Polls, finished: Polls, stale: Status)

  /** The service's data buffer after the TPM answered the command bytes it received. */
  function Answered(device: Device, received: seq<Byte>, before: seq<Byte>, responseLength: nat): seq<Byte>
    requires responseLength <= |before|
  {
    Response(device, received, responseLength) + before[responseLength..]
  }

  function CrbFinish(finished: Polls): Status {
    WaitFrom(BitWait(finished, 0, CRB_START), TIMEOUT_MAX, 0)
  }

  function FifoAccept(link: Link): Status {
    WaitFrom(BitWait(link.accepted, STS_VALID, STS_EXPECT), TIMEOUT_C, 0)
  }

  function FifoFinish(link: Link): Status {
    WaitFrom(BitWait(link.finished, STS_ANSWERED, 0), TIMEOUT_MAX, 0)
  }

  predicate Masked(x: bv32, mask: bv32, wanted: bv32) {
    x & mask == wanted
  }

  /** Read `n` is the first whose masked bits are as wanted, and every yield before it succeeds. */
  ghost predicate ShowsAt(p: Polls, mask: bv32, wanted: bv32, n: nat) {
    Masked(p.read(n), mask, wanted) && forall j: nat :: j < n ==> !Masked(p.read(j), mask, wanted) && p.resumes(j)
  }

  /** One of the reads up to `limit` does. */
  ghost predicate Shows(p: Polls, mask: bv32, wanted: bv32, limit: nat) {
    exists n: nat :: n <= limit && ShowsAt(p, mask, wanted, n)
  }

  lemma WantedBits(x: bv32)
    ensures BitsMatch(x, STS_VALID, STS_EXPECT) <==> Masked(x, 0x88, STS_VALID)
    ensures BitsMatch(x, STS_ANSWERED, 0) <==> Masked(x, 0x90, STS_ANSWERED)
    ensures BitsMatch(x, 0, CRB_START) <==> Masked(x, 1, 0)
  {
  }

  lemma BitWaitShows(p: Polls, ones: bv32, zeroes: bv32, mask: bv32, n: nat)
    requires forall k: nat :: BitsMatch(p.read(k), ones, zeroes) <==> Masked(p.read(k), mask, ones)
    ensures GoodAt(BitWait(p, ones, zeroes), n) <==> ShowsAt(p, mask, ones, n)
  {
    hide BitsMatch, Masked;
    assert forall k: nat :: BitWait(p, ones, zeroes).good(k) == Masked(p.read(k), mask, ones);
  }

  lemma BitWaitSucceedsExactly(p: Polls, ones: bv32, zeroes: bv32, mask: bv32, timeout: nat, limit: nat)
    requires forall x: bv32 :: BitsMatch(x, ones, zeroes) <==> Masked(x, mask, ones)
    requires timeout == 10_000 * limit
    ensures WaitFrom(BitWait(p, ones, zeroes), timeout, 0) == Success <==> Shows(p, mask, ones, limit)
  {
    hide BitsMatch, Masked, WaitFrom, ShowsAt, GoodAt, BitWait;
    WaitSucceedsExactly(BitWait(p, ones, zeroes), timeout, limit);
    forall n: nat ensures GoodAt(BitWait(p, ones, zeroes), n) <==> ShowsAt(p, mask, ones, n) {
      BitWaitShows(p, ones, zeroes, mask, n);
    }
  }

  /** What the three waits of a command wait for, and how long: 200 ms for the FIFO to have taken the command
      (valid, and no more expected), and 90 s for the response (valid and available, or the start bit of the
      CRB clear). */
  lemma WaitsMean(link: Link, finished: Polls)
    ensures FifoAccept(link) == Success <==> Shows(link.accepted, 0x88, 0x80, 20)
    ensures FifoFinish(link) == Success <==> Shows(link.finished, 0x90, 0x90, 9_000)
    ensures CrbFinish(finished) == Success <==> Shows(finished, 1, 0, 9_000)
  {
    hide WaitFrom, Shows, BitsMatch, Masked;
    forall x: bv32
      ensures BitsMatch(x, STS_VALID, STS_EXPECT) <==> Masked(x, 0x88, STS_VALID)
      ensures BitsMatch(x, STS_ANSWERED, 0) <==> Masked(x, 0x90, STS_ANSWERED)
      ensures BitsMatch(x, 0, CRB_START) <==> Masked(x, 1, 0)
    {
      WantedBits(x);
    }
    BitWaitSucceedsExactly(link.accepted, STS_VALID, STS_EXPECT, 0x88, TIMEOUT_C, 20);
    BitWaitSucceedsExactly(link.finished, STS_ANSWERED, 0, 0x90, TIMEOUT_MAX, 9_000);
    BitWaitSucceedsExactly(finished, 0, CRB_START, 1, TIMEOUT_MAX, 9_000);
  }

  /** No copy runs past `size` bytes: the response is fetched only once the command has run. */
  predicate CrbInside(size: nat, commandLength: nat, responseLength: nat, finished: Polls) {
    commandLength <= size && (CrbFinish(finished) == Success ==> responseLength <= size)
  }

  /** The same over a FIFO, where the response stops at a failed burst read. */
  predicate FifoInside(size: nat, commandLength: nat, responseLength: nat, link: Link) {
    && commandLength <= size
    && (FifoAccept(link) == Success && FifoFinish(link) == Success ==>
          Moved(link.response, responseLength, 0, 0) <= size)
  }

  function CrbOutcome(
      device: Device, before: seq<Byte>, commandLength: nat, responseLength: nat, finished: Polls): (Status, seq<Byte>)
    requires CrbInside(|before|, commandLength, responseLength, finished)
  {
    var status := CrbFinish(finished);
    (status,
     if status == Success then Answered(device, before[..commandLength], before, responseLength) else before)
  }

  function FifoStatus(link: Link, responseLength: nat): Status {
    if FifoAccept(link) != Success then FifoAccept(link)
    else if FifoFinish(link) != Success then FifoFinish(link)
    else if responseLength == 0 then link.stale
    else TransferStatus(link.response, responseLength, 0, 0)
  }

  function FifoOutcome(
      device: Device, before: seq<Byte>, commandLength: nat, responseLength: nat, link: Link): (Status, seq<Byte>)
    requires FifoInside(|before|, commandLength, responseLength, link)
  {
    var status := FifoStatus(link, responseLength);
    var received := before[..Moved(link.command, commandLength, 0, 0)];
    (status, if status == Success then Answered(device, received, before, responseLength) else before)
  }

  /** The local copy of the data buffer: the command, and zeroes after it. */
  method LocalCopy(crb: array<Byte>, commandLength: nat) returns (local: array<Byte>)
    requires commandLength <= crb.Length
    ensures fresh(local) && local.Length == crb.Length && local[..commandLength] == crb[..commandLength]
  {
    local := new Byte[crb.Length](_ => 0);
    for i := 0 to commandLength
      invariant forall j :: 0 <= j < i ==> local[j] == crb[j]
    {
      local[i] := crb[i];
    }
  }

  method CopyBack(crb: array<Byte>, local: array<Byte>, length: nat)
    requires crb != local && length <= crb.Length == local.Length
    modifies crb
    ensures crb[..] == local[..length] + old(crb[length..])
  {
    for i := 0 to length
      invariant forall j :: 0 <= j < i ==> crb[j] == local[j]
      invariant forall j :: i <= j < crb.Length ==> crb[j] == old(crb[j])
    {
      crb[i] := local[i];
    }
  }

  /** TpmSstStart over a CRB. */
  method StartCrb(crb: array<Byte>, commandLength: nat, responseLength: nat, device: Device, finished: Polls)
    returns (status: Status)
    requires CrbInside(crb.Length, commandLength, responseLength, finished)
    modifies crb
    ensures (status, crb[..]) == CrbOutcome(device, old(crb[..]), commandLength, responseLength, finished)
  {
    hide WaitFrom, BitWait;
    var local := LocalCopy(crb, commandLength);
    var received := CopyCommandCrb(local, commandLength);
    assert received == old(crb[..])[..commandLength];
    status := WaitRegisterBits(finished, 0, CRB_START, TIMEOUT_MAX);
    if status != Success {
      return;
    }
    CopyResponseCrb(local, responseLength, device, received);
    assert local[..responseLength] == Response(device, received, responseLength);
    CopyBack(crb, local, responseLength);
  }

  /** TpmSstStart over a FIFO. */
  method StartFifo(crb: array<Byte>, commandLength: nat, responseLength: nat, device: Device, link: Link)
    returns (status: Status)
    requires FifoInside(crb.Length, commandLength, responseLength, link)
    modifies crb
    ensures (status, crb[..]) == FifoOutcome(device, old(crb[..]), commandLength, responseLength, link)
  {
    hide WaitFrom, BitWait, TransferStatus, Moved;
    var local := LocalCopy(crb, commandLength);
    var received;
    ghost var chunks;
    received, chunks, status := CopyCommandFifo(local, commandLength, link.command, link.accepted);
    ghost var n := Moved(link.command, commandLength, 0, 0);
    assert received == local[..commandLength][..n] == old(crb[..])[..n];
    if status != Success {
      return;
    }
    status := WaitRegisterBits(link.finished, STS_ANSWERED, 0, TIMEOUT_MAX);
    if status != Success {
      return;
    }
    status := CopyResponseFifo(local, responseLength, device, received, link.response, link.stale);
    if status != Success {
      return;
    }
    assert Moved(link.response, responseLength, 0, 0) == responseLength;
    assert local[..responseLength] == Response(device, received, responseLength);
    CopyBack(crb, local, responseLength);
  }

  // ----- FIFO against CRB

  /** The link treats the command as a CRB that finishes with status `crb` would: the first wait or burst
      read to fail fails in the same way, or nothing fails, and then no command byte is lost whose
      loss a response could show. */
  ghost predicate Agrees(link: Link, commandLength: nat, responseLength: nat, crb: Status) {
    if FifoAccept(link) != Success then FifoAccept(link) == crb
    else if FifoFinish(link) != Success then FifoFinish(link) == crb
    else if responseLength == 0 then link.stale == crb
    else if !NoFailedRead(link.response, responseLength) then TransferStatus(link.response, responseLength, 0, 0) == crb
    else crb == Success && NoFailedRead(link.command, commandLength)
  }

  lemma AgreeingLinkMatches(
      device: Device, before: seq<Byte>, commandLength: nat, responseLength: nat, link: Link, finished: Polls)
    requires CrbInside(|before|, commandLength, responseLength, finished)
    requires FifoInside(|before|, commandLength, responseLength, link)
    requires Agrees(link, commandLength, responseLength, CrbFinish(finished))
    ensures FifoOutcome(device, before, commandLength, responseLength, link)
            == CrbOutcome(device, before, commandLength, responseLength, finished)
  {
    hide CrbFinish, FifoAccept, FifoFinish, NoFailedRead, TransferStatus;
    TransferIsCompleteExactly(link.command, commandLength);
    TransferIsCompleteExactly(link.response, responseLength);
    if responseLength == 0 {
      NoAnswerNoChange(device, before[..Moved(link.command, commandLength, 0, 0)], before);
      NoAnswerNoChange(device, before[..commandLength], before);
    }
  }

  lemma NoAnswerNoChange(device: Device, received: seq<Byte>, before: seq<Byte>)
    ensures Answered(device, received, before, 0) == before
  {
  }

  /** A TPM whose response tells how long the command was. */
  function LengthTeller(length: nat): Device {
    (command: seq<Byte>, i: nat) => if |command| == length then 1 else 0
  }

  lemma DisagreeingLinkDiffers(
      before: seq<Byte>, commandLength: nat, responseLength: nat, link: Link, finished: Polls)
    requires CrbInside(|before|, commandLength, responseLength, finished)
    requires FifoInside(|before|, commandLength, responseLength, link)
    requires !Agrees(link, commandLength, responseLength, CrbFinish(finished))
    ensures var device := LengthTeller(commandLength);
            FifoOutcome(device, before, commandLength, responseLength, link)
            != CrbOutcome(device, before, commandLength, responseLength, finished)
  {
    hide CrbFinish, FifoAccept, FifoFinish, NoFailedRead, TransferStatus;
    TransferIsCompleteExactly(link.command, commandLength);
    TransferIsCompleteExactly(link.response, responseLength);
    if FifoStatus(link, responseLength) == CrbFinish(finished) {
      var device, n := LengthTeller(commandLength), Moved(link.command, commandLength, 0, 0);
      assert |before[..n]| == n && |before[..commandLength]| == commandLength;
      var fifo, crb := Answered(device, before[..n], before, responseLength),
                       Answered(device, before[..commandLength], before, responseLength);
      assert crb[0] == 1 && fifo[0] == 0;
    }
  }

  /** The two paths agree on status and buffer for every TPM if and only if the link agrees. */
  lemma FifoMatchesCrbExactly(
      before: seq<Byte>, commandLength: nat, responseLength: nat, link: Link, finished: Polls)
    requires CrbInside(|before|, commandLength, responseLength, finished)
    requires FifoInside(|before|, commandLength, responseLength, link)
    ensures (forall device: Device ::
               FifoOutcome(device, before, commandLength, responseLength, link)
               == CrbOutcome(device, before, commandLength, responseLength, finished))
            <==> Agrees(link, commandLength, responseLength, CrbFinish(finished))
  {
    hide CrbFinish, Agrees, FifoOutcome, CrbOutcome;
    if Agrees(link, commandLength, responseLength, CrbFinish(finished)) {
      forall device: Device
        ensures FifoOutcome(device, before, commandLength, responseLength, link)
                == CrbOutcome(device, before, commandLength, responseLength, finished)
      {
        AgreeingLinkMatches(device, before, commandLength, responseLength, link, finished);
      }
    } else {
      DisagreeingLinkDiffers(before, commandLength, responseLength, link, finished);
    }
  }

  /** Both paths, run on equal buffers over a link that agrees, leave equal buffers. */
  method StartBoth(
      crb: array<Byte>, crb': array<Byte>, commandLength: nat, responseLength: nat, device: Device,
      link: Link, finished: Polls)
    returns (overFifo: Status, overCrb: Status)
    requires crb != crb' && crb[..] == crb'[..]
    requires CrbInside(crb.Length, commandLength, responseLength, finished)
    requires FifoInside(crb.Length, commandLength, responseLength, link)
    requires Agrees(link, commandLength, responseLength, CrbFinish(finished))
    modifies crb, crb'
    ensures overFifo == overCrb && crb[..] == crb'[..]
  {
    hide Agrees, FifoInside, CrbInside, FifoOutcome, CrbOutcome;
    ghost var before := crb[..];
    assert crb.Length == |crb[..]| == |crb'[..]| == crb'.Length;
    overFifo := StartFifo(crb, commandLength, responseLength, device, link);
    overCrb := StartCrb(crb', commandLength, responseLength, device, finished);
    AgreeingLinkMatches(device, before, commandLength, responseLength, link, finished);
  }

  /** The TPM is given the whole command, as over a CRB, exactly when no command burst read fails;
      the status does not tell. */
  lemma FifoDeliversTheCommandExactly(before: seq<Byte>, commandLength: nat, commandBursts: Bursts)
    requires commandLength <= |before|
    ensures before[..Moved(commandBursts, commandLength, 0, 0)] == before[..commandLength] <==>
              NoFailedRead(commandBursts, commandLength)
  {
    hide NoFailedRead;
    TransferIsCompleteExactly(commandBursts, commandLength);
    var n := Moved(commandBursts, commandLength, 0, 0);
    assert |before[..n]| == n && |before[..commandLength]| == commandLength;
  }

  /** A TPM that never announces a burst for the command, but one byte at a time for the response,
      and whose status registers are always as wanted. */
  function DeafLink(): Link {
    Link((_: nat) => BurstRead((_: nat) => 0, (_: nat) => 0, (_: nat) => true),
         (_: nat) => BurstRead((_: nat) => 1, (_: nat) => 0, (_: nat) => true),
         Polls((_: nat) => STS_VALID, (_: nat) => true),
         Polls((_: nat) => STS_ANSWERED, (_: nat) => true),
         Success)
  }

  /** The TPM receives nothing, and the call reports success. */
  lemma LostCommandExample(device: Device, before: seq<Byte>)
    requires |before| == 10
    ensures FifoInside(10, 10, 1, DeafLink())
    ensures FifoOutcome(device, before, 10, 1, DeafLink()) == (Success, Answered(device, [], before, 1))
  {
    var link := DeafLink();
    var silent := link.command(0);
    assert CountFrom(silent, 3) == 0;
    assert CountFrom(silent, 2) == 0;
    assert CountFrom(silent, 1) == 0;
    assert Burst(link.command, 0) == 0;
    assert Burst(link.response, 0) == 1;
    assert BitsMatch(STS_VALID, STS_VALID, STS_EXPECT);
    assert BitsMatch(STS_ANSWERED, STS_ANSWERED, 0);
    hide BitsMatch, Burst, CountFrom;
    assert FifoAccept(link) == Success && FifoFinish(link) == Success;
    assert Moved(link.command, 10, 0, 0) == 0;
    assert Moved(link.response, 1, 1, 1) == 1;
    assert Moved(link.response, 1, 0, 0) == 1;
    hide FifoAccept, FifoFinish, Moved, TransferStatus;
    assert FifoStatus(link, 1) == Success;
    assert before[..0] == [];
  }

  // ----- Staying inside the local buffer

  /** The interface to the TPM, with everything that is read from it. */
  datatype Interface = OverCrb(finished: Polls) | OverFifo(link: Link)

  predicate Inside(i: Interface, size: nat, commandLength: nat, responseLength: nat) {
    match i
    case OverCrb(finished) => CrbInside(size, commandLength, responseLength, finished)
    case OverFifo(link) => FifoInside(size, commandLength, responseLength, link)
  }

  /** Status and data buffer of TpmSstStart over either interface. */
  function StartOutcome(
      i: Interface, device: Device, before: seq<Byte>, commandLength: nat, responseLength: nat): (Status, seq<Byte>)
    requires Inside(i, |before|, commandLength, responseLength)
  {
    match i
    case OverCrb(finished) => CrbOutcome(device, before, commandLength, responseLength, finished)
    case OverFifo(link) => FifoOutcome(device, before, commandLength, responseLength, link)
  }

  /** No wait and no burst read of the whole command fails. */
  ghost predicate NothingFails(i: Interface, commandLength: nat, responseLength: nat) {
    match i
    case OverCrb(finished) => CrbFinish(finished) == Success
    case OverFifo(link) =>
      && FifoAccept(link) == Success && FifoFinish(link) == Success
      && NoFailedRead(link.command, commandLength) && NoFailedRead(link.response, responseLength)
  }

  /** Then the TPM answers the whole command, and the answer is in the data buffer. */
  lemma NothingFailsAnswers(
      i: Interface, device: Device, before: seq<Byte>, commandLength: nat, responseLength: nat)
    requires commandLength <= |before| && 0 < responseLength <= |before|
    requires NothingFails(i, commandLength, responseLength)
    ensures Inside(i, |before|, commandLength, responseLength)
    ensures StartOutcome(i, device, before, commandLength, responseLength)
            == (Success, Answered(device, before[..commandLength], before, responseLength))
  {
    hide CrbFinish, FifoAccept, FifoFinish, NoFailedRead;
    if i.OverFifo? {
      TransferIsCompleteExactly(i.link.command, commandLength);
      TransferIsCompleteExactly(i.link.response, responseLength);
    }
  }

  /** The copies stay inside the local buffer whatever the TPM does if and only if both lengths do. */
  lemma InsideWhateverTheTpmDoes(size: nat, commandLength: nat, responseLength: nat)
    ensures (forall i: Interface :: Inside(i, size, commandLength, responseLength)) <==>
              commandLength <= size && responseLength <= size
  {
    var prompt := OverCrb(Polls((_: nat) => 0, (_: nat) => true));
    assert BitsMatch(0, 0, CRB_START);
    assert CrbFinish(prompt.finished) == Success;
    hide CrbFinish, FifoAccept, FifoFinish;
    assert Inside(prompt, size, commandLength, responseLength) <==> commandLength <= size && responseLength <= size;
  }
}
