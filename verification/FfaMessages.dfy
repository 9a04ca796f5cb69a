/** Direct messages: their layout in the eighteen argument registers, and the loops that hand
    interrupts to the partition until a message arrives. */
module FfaMessages {
  import opened Powers

  const REQ_32: nat := 0x8400_006F
  const RESP_32: nat := 0x8400_0070
  const REQ_64: nat := 0xC400_006F
  const RESP_64: nat := 0xC400_0070
  const REQ2: nat := 0xC400_008D
  const RESP2: nat := 0xC400_008E
  const INTERRUPT: nat := 0x8400_0062
  const ERROR: nat := 0x8400_0060
  const SUCCESS: nat := 0x8400_0061

  const INVALID_SOURCE_ID: nat := 0xFFFF
  const TWO_16: nat := 0x1_0000
  const TWO_32: nat := 0x1_0000_0000
  const TWO_64: nat := 0x1_0000_0000_0000_0000

  datatype Message = Message(functionId: nat, source: nat, destination: nat, guid: seq<nat>, args: seq<nat>)

  predicate IsBytes(s: seq<nat>) {
    forall i :: 0 <= i < |s| ==> s[i] < 256
  }

  predicate ValidMessage(m: Message) {
    && m.functionId < TWO_32 && m.source < TWO_16 && m.destination < TWO_16
    && |m.guid| == 16 && IsBytes(m.guid) && |m.args| == 14
  }

  /** The contents of Arg0 to Arg17. */
  type Registers = r: seq<nat> | |r| == 18 witness seq(18, _ => 0)

  // ----- The GUID

  /** The first field is byte-swapped as 32 bits, the next two as 16 bits each. */
  function Prepared(g: seq<nat>): (p: seq<nat>)
    requires |g| == 16
    ensures |p| == 16
  {
    [g[3], g[2], g[1], g[0], g[5], g[4], g[7], g[6]] + g[8..]
  }

  method PrepareGuid(guid: array<nat>)
    requires guid.Length == 16
    modifies guid
    ensures guid[..] == Prepared(old(guid[..]))
  {
    guid[0], guid[1], guid[2], guid[3] := guid[3], guid[2], guid[1], guid[0];
    guid[4], guid[5] := guid[5], guid[4];
    guid[6], guid[7] := guid[7], guid[6];
  }

  /** Preparing twice gives the original GUID back. */
  lemma PreparedIsSelfInverse(g: seq<nat>)
    requires |g| == 16
    ensures Prepared(Prepared(g)) == g
  {
    assert Prepared(g)[8..] == g[8..];
  }

  function LoadLe(bytes: seq<nat>): nat {
    if bytes == [] then 0 else bytes[0] + 256 * LoadLe(bytes[1..])
  }

  function StoreLe(x: nat, k: nat): (bytes: seq<nat>)
    ensures |bytes| == k && IsBytes(bytes)
  {
    if k == 0 then [] else [x % 256] + StoreLe(x / 256, k - 1)
  }

  lemma {:induction false} StoreLoad(bytes: seq<nat>)
    requires IsBytes(bytes)
    ensures StoreLe(LoadLe(bytes), |bytes|) == bytes
  {
    if bytes != [] {
      assert IsBytes(bytes[1..]);
      StoreLoad(bytes[1..]);
    }
  }

  lemma {:induction false} LoadStore(x: nat, k: nat)
    requires x < Pow256(k)
    ensures LoadLe(StoreLe(x, k)) == x
  {
    if k > 0 {
      LoadStore(x / 256, k - 1);
      assert StoreLe(x, k)[1..] == StoreLe(x / 256, k - 1);
    }
  }

  // ----- Packing and unpacking

  predicate IsRequest32Or64(functionId: nat) {
    functionId == REQ_32 || functionId == REQ_64
  }

  predicate IsResponse32Or64(functionId: nat) {
    functionId == RESP_32 || functionId == RESP_64
  }

  function Pack(m: Message): Registers
    requires ValidMessage(m)
  {
    var ids := [m.functionId, m.source * TWO_16 + m.destination];
    if IsRequest32Or64(m.functionId) || IsResponse32Or64(m.functionId)
    then ids + m.args[..6] + seq(10, _ => 0)
    else
      var g := Prepared(m.guid);
      ids + [LoadLe(g[..8]), LoadLe(g[8..])] + m.args
  }

  /** Unpacking fills `m0`: the short layout leaves its GUID and last eight arguments alone. */
  function Unpack(r: Registers, m0: Message): Message
    requires |m0.args| == 14
  {
    var functionId := r[0] % TWO_32;
    var source, destination := (r[1] / TWO_16) % TWO_16, r[1] % TWO_16;
    if IsRequest32Or64(functionId)
    then Message(functionId, source, destination, m0.guid, r[2..8] + m0.args[6..])
    else Message(functionId, source, destination, Prepared(StoreLe(r[2], 8) + StoreLe(r[3], 8)), r[4..])
  }

  lemma IdsRoundTrip(m: Message)
    requires ValidMessage(m)
    ensures var r := Pack(m);
            && r[0] % TWO_32 == m.functionId
            && (r[1] / TWO_16) % TWO_16 == m.source && r[1] % TWO_16 == m.destination
  {
  }

  lemma GuidRoundTrip(g: seq<nat>)
    requires |g| == 16 && IsBytes(g)
    ensures var p := Prepared(g);
            Prepared(StoreLe(LoadLe(p[..8]), 8) + StoreLe(LoadLe(p[8..]), 8)) == g
  {
    var p := Prepared(g);
    assert IsBytes(p[..8]) && IsBytes(p[8..]);
    StoreLoad(p[..8]);
    StoreLoad(p[8..]);
    assert p[..8] + p[8..] == p;
    PreparedIsSelfInverse(g);
  }

  /** REQ2, RESP2 and every other long message come back whole. */
  lemma LongMessageRoundTrip(m: Message, m0: Message)
    requires ValidMessage(m) && |m0.args| == 14
    requires !IsRequest32Or64(m.functionId) && !IsResponse32Or64(m.functionId)
    ensures Unpack(Pack(m), m0) == m
  {
    hide Prepared, LoadLe, StoreLe;
    IdsRoundTrip(m);
    GuidRoundTrip(m.guid);
    var g := Prepared(m.guid);
    var r := Pack(m);
    assert r[2] == LoadLe(g[..8]) && r[3] == LoadLe(g[8..]) && r[4..] == m.args;
  }

  /** A 32- or 64-bit request comes back with its IDs and first six arguments. */
  lemma ShortRequestRoundTrip(m: Message, m0: Message)
    requires ValidMessage(m) && |m0.args| == 14 && IsRequest32Or64(m.functionId)
    ensures Unpack(Pack(m), m0) == m.(guid := m0.guid, args := m.args[..6] + m0.args[6..])
  {
    IdsRoundTrip(m);
    assert Pack(m)[2..8] == m.args[..6];
  }

  // ----- The layout, register by register

  /** Eight bytes as a register, the first least significant. */
  function Register(b0: nat, b1: nat, b2: nat, b3: nat, b4: nat, b5: nat, b6: nat, b7: nat): nat {
    b0 + 0x100 * b1 + 0x1_0000 * b2 + 0x100_0000 * b3
    + 0x1_0000_0000 * b4 + 0x100_0000_0000 * b5 + 0x1_0000_0000_0000 * b6 + 0x100_0000_0000_0000 * b7
  }

  lemma LoadIsRegister(b: seq<nat>)
    requires |b| == 8
    ensures LoadLe(b) == Register(b[0], b[1], b[2], b[3], b[4], b[5], b[6], b[7])
  {
    LoadFour(b[4..]);
    assert LoadLe(b) == b[0] + 256 * LoadLe(b[1..]);
    assert LoadLe(b[1..]) == b[1] + 256 * LoadLe(b[2..]) by {
      assert b[1..][1..] == b[2..];
    }
    assert LoadLe(b[2..]) == b[2] + 256 * LoadLe(b[3..]) by {
      assert b[2..][1..] == b[3..];
    }
    assert LoadLe(b[3..]) == b[3] + 256 * LoadLe(b[4..]) by {
      assert b[3..][1..] == b[4..];
    }
  }

  lemma LoadFour(b: seq<nat>)
    requires |b| == 4
    ensures LoadLe(b) == b[0] + 0x100 * b[1] + 0x1_0000 * b[2] + 0x100_0000 * b[3]
  {
    assert b[1..][1..] == b[2..] && b[2..][1..] == b[3..] && b[3..][1..] == [];
    assert LoadLe(b[3..]) == b[3];
    assert LoadLe(b[2..]) == b[2] + 256 * b[3];
    assert LoadLe(b[1..]) == b[1] + 256 * b[2] + 0x1_0000 * b[3];
  }

  predicate IsShort(functionId: nat) {
    || functionId == 0x8400_006F || functionId == 0xC400_006F
    || functionId == 0x8400_0070 || functionId == 0xC400_0070
  }

  /** What goes out for a message. x0 is the function, x1 the two IDs. A short message has its first six
      arguments from x2 on and zeroes after them. A long one has its GUID in x2 and x3, the first field of the
      GUID most significant byte first and so its second and third, and its arguments from x4 on. */
  lemma PackedLayout(m: Message)
    requires ValidMessage(m)
    ensures var r, g := Pack(m), m.guid;
            && r[0] == m.functionId && r[1] == 0x1_0000 * m.source + m.destination
            && (IsShort(m.functionId) ==>
                  && (forall i :: 0 <= i < 6 ==> r[2 + i] == m.args[i])
                  && (forall i :: 8 <= i < 18 ==> r[i] == 0))
            && (!IsShort(m.functionId) ==>
                  && r[2] == Register(g[3], g[2], g[1], g[0], g[5], g[4], g[7], g[6])
                  && r[3] == Register(g[8], g[9], g[10], g[11], g[12], g[13], g[14], g[15])
                  && (forall i :: 0 <= i < 14 ==> r[4 + i] == m.args[i]))
  {
    hide LoadLe, Register;
    if !IsShort(m.functionId) {
      var p := Prepared(m.guid);
      LoadIsRegister(p[..8]);
      LoadIsRegister(p[8..]);
    }
  }

  /** Registers as a conduit delivers them: the unused upper halves are zero. */
  predicate Deliverable(r: Registers) {
    && r[0] < TWO_32 && r[1] < TWO_32 && r[2] < TWO_64 && r[3] < TWO_64
    && !IsResponse32Or64(r[0])
    && (IsRequest32Or64(r[0]) ==> forall i :: 8 <= i < 18 ==> r[i] == 0)
  }

  /** The other way round: packing an unpacked message reproduces the registers. */
  lemma RegistersRoundTrip(r: Registers, m0: Message)
    requires ValidMessage(m0) && Deliverable(r)
    ensures ValidMessage(Unpack(r, m0)) && Pack(Unpack(r, m0)) == r
  {
    hide Unpack, Pack;
    if IsRequest32Or64(r[0]) {
      ShortRegistersRoundTrip(r, m0);
    } else {
      LongRegistersRoundTrip(r, m0);
    }
  }

  lemma ShortRegistersRoundTrip(r: Registers, m0: Message)
    requires ValidMessage(m0) && Deliverable(r) && IsRequest32Or64(r[0])
    ensures ValidMessage(Unpack(r, m0)) && Pack(Unpack(r, m0)) == r
  {
    hide Prepared, StoreLe, LoadLe;
    assert r[1] / TWO_16 * TWO_16 + r[1] % TWO_16 == r[1] && r[1] / TWO_16 < TWO_16;
    var m := Unpack(r, m0);
    assert m.args[..6] == r[2..8];
    assert [r[0], r[1]] + r[2..8] + seq(10, _ => 0) == r;
  }

  lemma LongRegistersRoundTrip(r: Registers, m0: Message)
    requires ValidMessage(m0) && Deliverable(r) && !IsRequest32Or64(r[0])
    ensures ValidMessage(Unpack(r, m0)) && Pack(Unpack(r, m0)) == r
  {
    hide Prepared, StoreLe, LoadLe;
    RegisterGuid(r[2], r[3]);
    assert r[1] / TWO_16 * TWO_16 + r[1] % TWO_16 == r[1] && r[1] / TWO_16 < TWO_16;
    assert [r[0], r[1]] + [r[2], r[3]] + r[4..] == r;
  }

  lemma EightBytes()
    ensures Pow256(8) == TWO_64
  {
    assert Pow256(4) == TWO_32;
  }

  lemma RegisterGuid(lo: nat, hi: nat)
    requires lo < TWO_64 && hi < TWO_64
    ensures var g := Prepared(StoreLe(lo, 8) + StoreLe(hi, 8));
            && IsBytes(g)
            && LoadLe(Prepared(g)[..8]) == lo && LoadLe(Prepared(g)[8..]) == hi
  {
    hide LoadLe, StoreLe;
    var s := StoreLe(lo, 8) + StoreLe(hi, 8);
    PreparedIsSelfInverse(s);
    assert s[..8] == StoreLe(lo, 8) && s[8..] == StoreLe(hi, 8);
    EightBytes();
    LoadStore(lo, 8);
    LoadStore(hi, 8);
  }

  // ----- Waiting

  /** What the secure monitor answers to the k-th call of an exchange. */
  type Conduit = nat -> Registers

  /** The first answer that is not an interrupt is answer `n`. */
  predicate FirstMessageAt(conduit: Conduit, n: nat) {
    conduit(n)[0] != INTERRUPT && forall k: nat :: k < n ==> conduit(k)[0] == INTERRUPT
  }

  /** Every interrupt before the first other answer is handled once, in order, and that answer is
      the one returned. */
  method DrainInterrupts(conduit: Conduit, ghost n: nat) returns (handled: seq<nat>, result: Registers)
    requires FirstMessageAt(conduit, n)
    ensures handled == seq(n, k requires 0 <= k < n => conduit(k)[2] % TWO_32)
    ensures result == conduit(n)
  {
    handled := [];
    var k: nat := 0;
    result := conduit(0);
    while result[0] == INTERRUPT
      invariant k <= n && result == conduit(k) && |handled| == k
      invariant forall i: nat :: i < k ==> handled[i] == conduit(i)[2] % TWO_32
      decreases n - k
    {
      handled := handled + [result[2] % TWO_32];
      k := k + 1;
      result := conduit(k);
    }
  }

  /** What the caller gets: an error code, or a message. `asserted` is false when the ASSERT that any
      other answer is FFA_SUCCESS fails on the way. */
  datatype Received = Failed(code: nat) | Received(message: Message, asserted: bool)

  function EmptyMessage(functionId: nat): Message {
    Message(functionId, 0, 0, seq(16, _ => 0), seq(14, _ => 0))
  }

  /** The answers that FfaMessageWait and FfaMessageSendDirectResp unpack. */
  predicate ExpectsRequest(functionId: nat) {
    IsRequest32Or64(functionId) || functionId == REQ2
  }

  /** How an answer is read, given the function IDs the call unpacks. */
  function Decode(r: Registers, expected: bool, m0: Message): Received
    requires |m0.args| == 14
  {
    if r[0] == ERROR then Failed(r[2])
    else if expected then Received(Unpack(r, m0), true)
    else Received(EmptyMessage(r[0] % TWO_32), r[0] == SUCCESS)
  }

  function DecodeRequest(r: Registers, m0: Message): Received
    requires |m0.args| == 14
  {
    Decode(r, ExpectsRequest(r[0]), m0)
  }

  /** FfaMessageSendDirectReq2 unpacks a RESP2 answer only. */
  function DecodeResponse2(r: Registers, m0: Message): Received
    requires |m0.args| == 14
  {
    Decode(r, r[0] == RESP2, m0)
  }

  /** An answer that is neither an error nor expected is never unpacked: two answers with the same ID
      read alike whatever else they carry, as an empty message, and the ASSERT holds exactly for FFA_SUCCESS. A 32- or
      64-bit response is such an answer everywhere. */
  lemma UnexpectedAnswerIsNotUnpacked(r: Registers, r': Registers, m0: Message, m0': Message)
    requires |m0.args| == |m0'.args| == 14 && r[0] == r'[0] != ERROR
    ensures !ExpectsRequest(r[0]) ==>
              && DecodeRequest(r, m0) == DecodeRequest(r', m0') && DecodeRequest(r, m0).Received?
              && (DecodeRequest(r, m0).asserted <==> r[0] == SUCCESS)
              && DecodeRequest(r, m0).message == Message(r[0] % 0x1_0000_0000, 0, 0, seq(16, _ => 0), seq(14, _ => 0))
    ensures r[0] != RESP2 ==>
              && DecodeResponse2(r, m0) == DecodeResponse2(r', m0') && DecodeResponse2(r, m0).Received?
              && (DecodeResponse2(r, m0).asserted <==> r[0] == SUCCESS)
              && DecodeResponse2(r, m0).message == Message(r[0] % 0x1_0000_0000, 0, 0, seq(16, _ => 0), seq(14, _ => 0))
    ensures IsResponse32Or64(r[0]) ==> !ExpectsRequest(r[0]) && r[0] != RESP2
  {
  }

  /** Which answers are read as what: an error with its code, a request or a RESP2 as a message. */
  lemma AnswersAreRead(r: Registers, m0: Message)
    requires |m0.args| == 14
    ensures r[0] == 0x8400_0060 ==> DecodeRequest(r, m0) == DecodeResponse2(r, m0) == Failed(r[2])
    ensures r[0] == 0x8400_006F || r[0] == 0xC400_006F || r[0] == 0xC400_008D ==>
              DecodeRequest(r, m0) == Received(Unpack(r, m0), true)
    ensures r[0] == 0xC400_008E ==> DecodeResponse2(r, m0) == Received(Unpack(r, m0), true)
    ensures r[0] == 0x8400_0061 ==>
              DecodeRequest(r, m0) == DecodeResponse2(r, m0)
              == Received(Message(0x8400_0061, 0, 0, seq(16, _ => 0), seq(14, _ => 0)), true)
  {
    hide Unpack;
  }

  /** What a partition that waits with `m0` at hand gets when `m` was sent to it. */
  function Delivered(m: Message, m0: Message): Message
    requires |m.args| == |m0.args| == 14
  {
    if IsRequest32Or64(m.functionId) then m.(guid := m0.guid, args := m.args[..6] + m0.args[6..]) else m
  }

  lemma PackedRequestIsRead(m: Message, m0: Message)
    requires ValidMessage(m) && |m0.args| == 14 && ExpectsRequest(m.functionId)
    ensures DecodeRequest(Pack(m), m0) == Received(Delivered(m, m0), true)
  {
    hide Unpack, Pack;
    if m.functionId == REQ2 {
      LongMessageRoundTrip(m, m0);
    } else {
      ShortRequestRoundTrip(m, m0);
    }
    FunctionIdIsFirst(m);
  }

  lemma FunctionIdIsFirst(m: Message)
    requires ValidMessage(m)
    ensures Pack(m)[0] == m.functionId
  {
  }

  /** FfaMessageWait: whatever `n` interrupts come first, each is handled once, in order, and a request
      packed by the sender comes back as the sender's message. */
  method MessageWait(conduit: Conduit, ghost n: nat, m0: Message) returns (handled: seq<nat>, received: Received)
    requires FirstMessageAt(conduit, n) && |m0.args| == 14
    ensures |handled| == n && forall k :: 0 <= k < n ==> handled[k] == conduit(k)[2] % TWO_32
    ensures received == DecodeRequest(conduit(n), m0)
    ensures forall m :: ValidMessage(m) && conduit(n) == Pack(m) && ExpectsRequest(m.functionId) ==>
              received == Received(Delivered(m, m0), true)
  {
    hide Pack, DecodeRequest, Delivered;
    var r;
    handled, r := DrainInterrupts(conduit, n);
    received := DecodeRequest(r, m0);
    forall m | ValidMessage(m) && conduit(n) == Pack(m) && ExpectsRequest(m.functionId)
      ensures received == Received(Delivered(m, m0), true)
    {
      PackedRequestIsRead(m, m0);
    }
  }

  /** FfaMessageSendDirectResp: reply, then wait for the next request. */
  method SendDirectResp(functionId: nat, m: Message, m0: Message, conduit: Conduit, ghost n: nat)
    returns (sent: Registers, handled: seq<nat>, received: Received)
    requires functionId < TWO_32 && ValidMessage(m) && |m0.args| == 14 && FirstMessageAt(conduit, n)
    ensures sent == Pack(m.(functionId := functionId))
    ensures |handled| == n && forall k :: 0 <= k < n ==> handled[k] == conduit(k)[2] % TWO_32
    ensures received == DecodeRequest(conduit(n), m0)
    ensures forall q :: ValidMessage(q) && conduit(n) == Pack(q) && ExpectsRequest(q.functionId) ==>
              received == Received(Delivered(q, m0), true)
  {
    sent := Pack(m.(functionId := functionId));
    handled, received := MessageWait(conduit, n, m0);
  }

  /** The sending side: the partition's own ID is fetched once and kept. */
  class Port {
    var partitionId: nat

    constructor ()
      ensures partitionId == INVALID_SOURCE_ID
    {
      partitionId := INVALID_SOURCE_ID;
    }

    /** FfaMessageSendDirectReq2; `ownId` is what the ID query would answer now. */
    method SendDirectReq2(
        destination: nat, guid: seq<nat>, args: seq<nat>, ownId: nat, conduit: Conduit, ghost n: nat)
      returns (sent: Registers, handled: seq<nat>, received: Received)
      requires destination < TWO_16 && |guid| == 16 && IsBytes(guid) && |args| == 14 && ownId < TWO_16
      requires partitionId < TWO_16 && FirstMessageAt(conduit, n)
      modifies this
      ensures partitionId == if old(partitionId) == INVALID_SOURCE_ID then ownId else old(partitionId)
      ensures partitionId < TWO_16
      ensures sent == Pack(Message(REQ2, partitionId, destination, guid, args))
      ensures |handled| == n && forall k :: 0 <= k < n ==> handled[k] == conduit(k)[2] % TWO_32
      ensures received == DecodeResponse2(conduit(n), Message(REQ2, partitionId, destination, guid, args))
      ensures forall m :: ValidMessage(m) && conduit(n) == Pack(m) && m.functionId == RESP2 ==>
                received == Received(m, true)
    {
      hide Pack, Unpack;
      if partitionId == INVALID_SOURCE_ID {
        partitionId := ownId;
      }
      var m := Message(REQ2, partitionId, destination, guid, args);
      sent := Pack(m);
      var r;
      handled, r := DrainInterrupts(conduit, n);
      received := DecodeResponse2(r, m);
      forall q | ValidMessage(q) && conduit(n) == Pack(q) && q.functionId == RESP2
        ensures received == Received(q, true)
      {
        LongMessageRoundTrip(q, m);
        FunctionIdIsFirst(q);
      }
    }
  }
}
