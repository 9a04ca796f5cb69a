/** The notification registry as values: sixteen services of sixty-four mappings each, and the
    global set of notification IDs in use. */
module Notification {

  const MAX_SERVICES: nat := 16
  const MAX_MAPPINGS: nat := 64
  const MAPPING_MIN: nat := 1
  const MAPPING_MAX: nat := 7

  /** The largest ID for which the `int` shift `1 << Id` is defined and has one bit set. */
  const MAX_ID: nat := 30

  datatype Status = Success | NotSupported | InvalidParameter | NoMem

  datatype Mapping = Mapping(id: nat, cookie: nat, perVcpu: bool)

  datatype Info = Info(cookie: nat, id: nat, perVcpu: bool, source: nat, inUse: bool)

  datatype Service = Service(uuid: seq<nat>, info: seq<Info>, inUse: bool)

  /** `mask` is the GlobalBitmask, as the set of its bit positions. */
  datatype Registry = Registry(mask: set<nat>, services: seq<Service>)

  /** A direct request: x5-x10 are `arg1` to `arg6`, and x11 onwards are `words`. */
  datatype Request = Request(
    source: nat, arg1: nat, arg2: nat, arg3: nat, arg4: nat, arg5: bv64, arg6: nat, words: seq<nat>)

  const UNUSED: Info := Info(0, 0, false, 0, false)

  /** The bit fields of one mapping word: PerVcpu in bit 0, Id in bits 23-31, Cookie in bits 32-63. */
  function DecodeMapping(w: nat): Mapping {
    Mapping((w / 0x80_0000) % 0x200, (w / 0x1_0000_0000) % 0x1_0000_0000, w % 2 == 1)
  }

  /** The mappings a request carries; the count is the low byte of `arg6`. */
  function Mappings(q: Request): seq<Mapping>
    requires |q.words| == MAPPING_MAX
  {
    var n := q.arg6 % 0x100;
    if n < MAPPING_MIN || n > MAPPING_MAX then [] else seq(n, i requires 0 <= i < n => DecodeMapping(q.words[i]))
  }

  // ----- UUIDs

  function ByteOf(x: nat, k: nat): nat {
    if k == 0 then x % 256 else ByteOf(x / 256, k - 1)
  }

  function UuidByte(lo: nat, hi: nat, i: nat): nat
    requires i < 16
  {
    if i < 8 then ByteOf(hi, 7 - i) else ByteOf(lo, 15 - i)
  }

  function UuidOf(lo: nat, hi: nat): (u: seq<nat>)
    ensures |u| == 16
  {
    seq(16, i requires 0 <= i < 16 => UuidByte(lo, hi, i))
  }

  /** The comparison of line 253: `sizeof (Uuid)` is the size of a pointer, eight bytes. */
  predicate SamePrefix(u: seq<nat>, v: seq<nat>)
    requires |u| == |v| == 16
  {
    u[..8] == v[..8]
  }

  // ----- One mapping

  /** The first mapping from `k` on that is in use with this cookie, or -1. */
  function CookieFrom(info: seq<Info>, cookie: nat, k: nat): (i: int)
    requires k <= |info|
    ensures i == -1 || k <= i < |info|
    ensures i >= 0 ==> info[i].inUse && info[i].cookie == cookie
    ensures forall j :: k <= j < (if i < 0 then |info| else i) ==> !(info[j].inUse && info[j].cookie == cookie)
    decreases |info| - k
  {
    if k == |info| then -1
    else if info[k].inUse && info[k].cookie == cookie then k
    else CookieFrom(info, cookie, k + 1)
  }

  /** The first unused mapping from `k` on, or -1. */
  function UnusedFrom(info: seq<Info>, k: nat): (i: int)
    requires k <= |info|
    ensures i == -1 || k <= i < |info|
    ensures i >= 0 ==> !info[i].inUse
    ensures forall j :: k <= j < (if i < 0 then |info| else i) ==> info[j].inUse
    decreases |info| - k
  {
    if k == |info| then -1 else if !info[k].inUse then k else UnusedFrom(info, k + 1)
  }

  datatype Applied = Applied(status: Status, info: seq<Info>, mask: set<nat>)

  function EntryFor(source: nat, m: Mapping): Info {
    Info(m.cookie, m.id, m.perVcpu, source, true)
  }

  /** One turn of the loop of UpdateServiceInfo, on the temporaries. */
  function ApplyOne(unregister: bool, source: nat, m: Mapping, info: seq<Info>, mask: set<nat>): Applied {
    var found := CookieFrom(info, m.cookie, 0);
    if unregister then
      if found < 0 || info[found].id != m.id || info[found].source != source
      then Applied(InvalidParameter, info, mask)
      else Applied(Success, info[found := UNUSED], mask - {m.id})
    else
      if found >= 0 || m.id in mask then Applied(InvalidParameter, info, mask)
      else
        var empty := UnusedFrom(info, 0);
        if empty < 0 then Applied(NoMem, info, mask)
        else Applied(Success, info[empty := EntryFor(source, m)], mask + {m.id})
  }

  /** All the mappings of a request: the first refusal ends it, and what came before it stays. */
  function ApplyAll(unregister: bool, source: nat, ms: seq<Mapping>, info: seq<Info>, mask: set<nat>): Applied {
    if ms == [] then Applied(Success, info, mask)
    else
      var r := ApplyOne(unregister, source, ms[0], info, mask);
      if r.status != Success then r else ApplyAll(unregister, source, ms[1..], r.info, r.mask)
  }

  // ----- Requests

  predicate WellShaped(r: Registry) {
    && |r.services| == MAX_SERVICES
    && forall s :: 0 <= s < |r.services| ==> |r.services[s].info| == MAX_MAPPINGS && |r.services[s].uuid| == 16
  }

  predicate Matches(s: Service, uuid: seq<nat>, empty: bool)
    requires |s.uuid| == |uuid| == 16
  {
    if empty then !s.inUse else s.inUse && SamePrefix(uuid, s.uuid)
  }

  /** The first matching slot from `k` on, or -1. */
  function LocateFrom(services: seq<Service>, uuid: seq<nat>, empty: bool, k: nat): (i: int)
    requires k <= |services| && |uuid| == 16
    requires forall s :: 0 <= s < |services| ==> |services[s].uuid| == 16
    ensures i == -1 || k <= i < |services|
    ensures i >= 0 ==> Matches(services[i], uuid, empty)
    ensures forall j :: k <= j < (if i < 0 then |services| else i) ==> !Matches(services[j], uuid, empty)
    decreases |services| - k
  {
    if k == |services| then -1
    else if Matches(services[k], uuid, empty) then k
    else LocateFrom(services, uuid, empty, k + 1)
  }

  function Locate(r: Registry, uuid: seq<nat>, empty: bool): (i: int)
    requires WellShaped(r) && |uuid| == 16
    ensures -1 <= i < MAX_SERVICES
    ensures i >= 0 ==> Matches(r.services[i], uuid, empty)
    ensures forall j :: 0 <= j < (if i < 0 then MAX_SERVICES else i) ==> !Matches(r.services[j], uuid, empty)
  {
    LocateFrom(r.services, uuid, empty, 0)
  }

  /** The registry with slot `s` and the bitmask replaced by the outcome. */
  function Commit(r: Registry, s: nat, a: Applied): Registry
    requires s < |r.services|
  {
    Registry(a.mask, r.services[s := r.services[s].(info := a.info)])
  }

  function Update(r: Registry, unregister: bool, q: Request, s: nat): (Registry, Status)
    requires s < |r.services| && |q.words| == MAPPING_MAX
  {
    var ms := Mappings(q);
    if ms == [] then (r, InvalidParameter)
    else
      var a := ApplyAll(unregister, q.source, ms, r.services[s].info, r.mask);
      (Commit(r, s, a), a.status)
  }

  function Claim(r: Registry, s: nat, uuid: seq<nat>): Registry
    requires s < |r.services|
  {
    r.(services := r.services[s := r.services[s].(uuid := uuid, inUse := true)])
  }

  /** The slot a registration uses: the one with this UUID, else the first empty one. */
  function SlotFor(r: Registry, uuid: seq<nat>): (s: int)
    requires WellShaped(r) && |uuid| == 16
    ensures -1 <= s < MAX_SERVICES
  {
    var known := Locate(r, uuid, false);
    if known >= 0 then known else Locate(r, uuid, true)
  }

  function Register(r: Registry, q: Request): (Registry, Status)
    requires WellShaped(r) && |q.words| == MAPPING_MAX
  {
    var uuid := UuidOf(q.arg3, q.arg4);
    var s := SlotFor(r, uuid);
    if s < 0 then (r, NoMem)
    else
      var (r', status) := Update(r, false, q, s);
      (if status == Success && !r.services[s].inUse then Claim(r', s, uuid) else r', status)
  }

  function Unregister(r: Registry, q: Request): (Registry, Status)
    requires WellShaped(r) && |q.words| == MAPPING_MAX
  {
    var s := Locate(r, UuidOf(q.arg3, q.arg4), false);
    if s < 0 then (r, InvalidParameter) else Update(r, true, q, s)
  }

  /** The opcode is the low two bits of `arg5`, so the memory opcodes 4 and 5 are never seen. */
  function Handle(r: Registry, q: Request): (Registry, Status)
    requires WellShaped(r) && |q.words| == MAPPING_MAX
  {
    var opcode := q.arg5 & 3;
    if opcode == 2 then Register(r, q)
    else if opcode == 3 then Unregister(r, q)
    else (r, NotSupported)
  }

  function Initial(): (r: Registry)
    ensures WellShaped(r)
  {
    Registry({}, seq(MAX_SERVICES, _ => Service(seq(16, _ => 0), seq(MAX_MAPPINGS, _ => UNUSED), false)))
  }

  // ----- Signalling

  datatype Signal = NoSignal | Signal(destination: nat, flag: bv32, bit: nat)

  /** The first mapping from `k` on with this cookie, in use or not, or -1. */
  function AnyCookieFrom(info: seq<Info>, cookie: nat, k: nat): (i: int)
    requires k <= |info|
    ensures i == -1 || k <= i < |info|
    ensures i >= 0 ==> info[i].cookie == cookie
    ensures forall j :: k <= j < (if i < 0 then |info| else i) ==> info[j].cookie != cookie
    decreases |info| - k
  {
    if k == |info| then -1 else if info[k].cookie == cookie then k else AnyCookieFrom(info, cookie, k + 1)
  }

  function SignalOf(e: Info, flag: bv32): Signal {
    Signal(e.source, if e.perVcpu then flag | 1 else flag, e.id)
  }

  /** The notification that NotificationServiceIdSet raises, if any. */
  function IdSet(r: Registry, cookie: nat, uuid: seq<nat>, flag: bv32): Signal
    requires WellShaped(r) && |uuid| == 16
  {
    var s := Locate(r, uuid, false);
    if s < 0 then NoSignal
    else
      var i := AnyCookieFrom(r.services[s].info, cookie, 0);
      if i < 0 then NoSignal else SignalOf(r.services[s].info[i], flag)
  }

  /** What it should raise: the registered mapping with this cookie, and nothing without one. */
  function ExpectedSignal(r: Registry, cookie: nat, uuid: seq<nat>, flag: bv32): Signal
    requires WellShaped(r) && |uuid| == 16
  {
    var s := Locate(r, uuid, false);
    if s < 0 then NoSignal
    else
      var i := CookieFrom(r.services[s].info, cookie, 0);
      if i < 0 then NoSignal else SignalOf(r.services[s].info[i], flag)
  }
}
