/** What every request keeps about the registry, and what requests undo or leave behind. */
module NotificationTheorems {
  import opened Notification
  import opened Powers

  // ----- The invariant

  ghost predicate Carries(r: Registry, s: int, i: int, b: nat) {
    && 0 <= s < |r.services| && 0 <= i < |r.services[s].info|
    && r.services[s].info[i].inUse && r.services[s].info[i].id == b
  }

  /** Within one slot: unused mappings are all zero and cookies in use are distinct. */
  ghost predicate SlotInv(info: seq<Info>) {
    && |info| == MAX_MAPPINGS
    && (forall i :: 0 <= i < |info| ==> !info[i].inUse ==> info[i] == UNUSED)
    && (forall i :: 0 <= i < |info| ==> info[i].inUse ==> info[i].id <= MAX_ID)
    && (forall i, j :: 0 <= i < j < |info| && info[i].inUse && info[j].inUse ==> info[i].cookie != info[j].cookie)
  }

  /** A bit of the mask is set exactly when one mapping, of all slots, carries that ID. */
  ghost predicate MaskInv(r: Registry) {
    && (forall b :: b in r.mask <==> exists s, i :: Carries(r, s, i, b))
    && (forall s, i, t, j, b :: Carries(r, s, i, b) && Carries(r, t, j, b) ==> s == t && i == j)
  }

  ghost predicate UuidInv(r: Registry)
    requires WellShaped(r)
  {
    forall s, t :: 0 <= s < t < |r.services| && r.services[s].inUse && r.services[t].inUse ==>
      !SamePrefix(r.services[s].uuid, r.services[t].uuid)
  }

  ghost predicate Inv(r: Registry) {
    && WellShaped(r) && MaskInv(r) && UuidInv(r)
    && forall s :: 0 <= s < |r.services| ==> SlotInv(r.services[s].info)
  }

  // ----- One mapping

  lemma CarriesAfterCommit(r: Registry, s: nat, a: Applied, t: int, j: int, b: nat)
    requires s < |r.services|
    ensures Carries(Commit(r, s, a), t, j, b) <==>
              if t == s then 0 <= j < |a.info| && a.info[j].inUse && a.info[j].id == b else Carries(r, t, j, b)
  {
  }

  lemma RegisterOneKeepsMask(r: Registry, s: nat, source: nat, m: Mapping)
    requires MaskInv(r) && s < |r.services|
    requires ApplyOne(false, source, m, r.services[s].info, r.mask).status == Success
    ensures MaskInv(Commit(r, s, ApplyOne(false, source, m, r.services[s].info, r.mask)))
  {
    var info := r.services[s].info;
    var e := UnusedFrom(info, 0);
    var a := ApplyOne(false, source, m, info, r.mask);
    var r' := Commit(r, s, a);
    assert a.info == info[e := EntryFor(source, m)];
    forall t, j, b
      ensures Carries(r', t, j, b) <==> Carries(r, t, j, b) || (t == s && j == e && b == m.id)
    {
      CarriesAfterCommit(r, s, a, t, j, b);
    }
    assert Carries(r', s, e, m.id);
    forall b ensures b in r'.mask <==> exists t, j :: Carries(r', t, j, b) {
      if b in r.mask {
        var t, j :| Carries(r, t, j, b);
        assert Carries(r', t, j, b);
      }
    }
  }

  lemma UnregisterOneKeepsMask(r: Registry, s: nat, source: nat, m: Mapping)
    requires MaskInv(r) && s < |r.services|
    requires ApplyOne(true, source, m, r.services[s].info, r.mask).status == Success
    ensures MaskInv(Commit(r, s, ApplyOne(true, source, m, r.services[s].info, r.mask)))
    ensures m.id in r.mask
  {
    var info := r.services[s].info;
    var f := CookieFrom(info, m.cookie, 0);
    var a := ApplyOne(true, source, m, info, r.mask);
    var r' := Commit(r, s, a);
    assert Carries(r, s, f, m.id);
    forall t, j, b
      ensures Carries(r', t, j, b) <==> Carries(r, t, j, b) && !(t == s && j == f)
    {
      CarriesAfterCommit(r, s, a, t, j, b);
    }
    forall b ensures b in r'.mask <==> exists t, j :: Carries(r', t, j, b) {
      if b in r'.mask {
        var t, j :| Carries(r, t, j, b);
        assert Carries(r', t, j, b);
      }
    }
  }

  lemma ApplyOneKeepsSlot(unregister: bool, source: nat, m: Mapping, info: seq<Info>, mask: set<nat>)
    requires SlotInv(info) && m.id <= MAX_ID
    ensures SlotInv(ApplyOne(unregister, source, m, info, mask).info)
  {
  }

  lemma CommitKeepsInv(r: Registry, s: nat, a: Applied)
    requires Inv(r) && s < |r.services| && SlotInv(a.info) && MaskInv(Commit(r, s, a))
    ensures Inv(Commit(r, s, a))
  {
    var r' := Commit(r, s, a);
    assert forall t :: 0 <= t < |r'.services| ==>
      r'.services[t].uuid == r.services[t].uuid && r'.services[t].inUse == r.services[t].inUse;
  }

  lemma ApplyOneKeepsInv(r: Registry, s: nat, unregister: bool, source: nat, m: Mapping)
    requires Inv(r) && s < |r.services| && m.id <= MAX_ID
    ensures Inv(Commit(r, s, ApplyOne(unregister, source, m, r.services[s].info, r.mask)))
  {
    hide Inv, MaskInv, SlotInv;
    var a := ApplyOne(unregister, source, m, r.services[s].info, r.mask);
    InvParts(r, s);
    ApplyOneKeepsSlot(unregister, source, m, r.services[s].info, r.mask);
    if a.status != Success {
      CommitNothing(r, s);
      assert a == Applied(a.status, r.services[s].info, r.mask);
      assert Commit(r, s, a) == r;
    } else if unregister {
      UnregisterOneKeepsMask(r, s, source, m);
      CommitKeepsInv(r, s, a);
    } else {
      RegisterOneKeepsMask(r, s, source, m);
      CommitKeepsInv(r, s, a);
    }
  }

  lemma InvParts(r: Registry, s: nat)
    requires Inv(r) && s < |r.services|
    ensures WellShaped(r) && MaskInv(r) && SlotInv(r.services[s].info)
  {
  }

  lemma CommitNothing(r: Registry, s: nat)
    requires s < |r.services|
    ensures forall status :: Commit(r, s, Applied(status, r.services[s].info, r.mask)) == r
  {
    assert r.services[s := r.services[s].(info := r.services[s].info)] == r.services;
  }

  lemma {:induction false} ApplyAllKeepsInv(r: Registry, s: nat, unregister: bool, source: nat, ms: seq<Mapping>)
    requires Inv(r) && s < |r.services|
    requires forall k :: 0 <= k < |ms| ==> ms[k].id <= MAX_ID
    ensures Inv(Commit(r, s, ApplyAll(unregister, source, ms, r.services[s].info, r.mask)))
    decreases |ms|
  {
    hide Inv, ApplyOne;
    if ms == [] {
      CommitNothing(r, s);
    } else {
      var a := ApplyOne(unregister, source, ms[0], r.services[s].info, r.mask);
      ApplyOneKeepsInv(r, s, unregister, source, ms[0]);
      if a.status == Success {
        var r' := Commit(r, s, a);
        ApplyAllKeepsInv(r', s, unregister, source, ms[1..]);
        var rest := ApplyAll(unregister, source, ms[1..], a.info, a.mask);
        assert Commit(r', s, rest) == Commit(r, s, rest);
      }
    }
  }

  // ----- Requests

  predicate SmallIds(q: Request)
    requires |q.words| == MAPPING_MAX
  {
    forall k :: 0 <= k < |Mappings(q)| ==> Mappings(q)[k].id <= MAX_ID
  }

  lemma UpdateKeepsInv(r: Registry, unregister: bool, q: Request, s: nat)
    requires Inv(r) && s < |r.services| && |q.words| == MAPPING_MAX && SmallIds(q)
    ensures Inv(Update(r, unregister, q, s).0)
  {
    ApplyAllKeepsInv(r, s, unregister, q.source, Mappings(q));
  }

  lemma ClaimKeepsInv(r: Registry, s: nat, uuid: seq<nat>)
    requires Inv(r) && s < |r.services| && |uuid| == 16 && !r.services[s].inUse
    requires forall t :: 0 <= t < |r.services| ==> !Matches(r.services[t], uuid, false)
    ensures Inv(Claim(r, s, uuid))
  {
    var r' := Claim(r, s, uuid);
    forall t, j, b ensures Carries(r', t, j, b) <==> Carries(r, t, j, b) {
    }
  }

  lemma UpdateKeepsUuids(r: Registry, unregister: bool, q: Request, s: nat)
    requires s < |r.services| && |q.words| == MAPPING_MAX
    ensures var r' := Update(r, unregister, q, s).0;
            && |r'.services| == |r.services|
            && forall t :: 0 <= t < |r.services| ==>
                 r'.services[t].uuid == r.services[t].uuid && r'.services[t].inUse == r.services[t].inUse
  {
    hide ApplyAll;
  }

  lemma RegisterKeepsInv(r: Registry, q: Request)
    requires Inv(r) && |q.words| == MAPPING_MAX && SmallIds(q)
    ensures Inv(Register(r, q).0)
  {
    hide MaskInv, SlotInv, UuidInv, Update, SamePrefix, UuidOf;
    var uuid := UuidOf(q.arg3, q.arg4);
    var s := SlotFor(r, uuid);
    if s >= 0 {
      UpdateKeepsInv(r, false, q, s);
      UpdateKeepsUuids(r, false, q, s);
      var (r', status) := Update(r, false, q, s);
      if status == Success && !r.services[s].inUse {
        ClaimKeepsInv(r', s, uuid);
      }
    }
  }

  lemma HandleKeepsInv(r: Registry, q: Request)
    requires Inv(r) && |q.words| == MAPPING_MAX && SmallIds(q)
    ensures Inv(Handle(r, q).0)
  {
    hide Inv, Register, Update;
    assert WellShaped(r) by {
      InvIsWellShaped(r);
    }
    var s := Locate(r, UuidOf(q.arg3, q.arg4), false);
    if q.arg5 & 3 == 2 {
      RegisterKeepsInv(r, q);
    } else if q.arg5 & 3 == 3 && s >= 0 {
      UpdateKeepsInv(r, true, q, s);
    }
  }

  lemma InvIsWellShaped(r: Registry)
    requires Inv(r)
    ensures WellShaped(r)
  {
  }

  lemma InitialHoldsInv()
    ensures Inv(Initial())
  {
    var r := Initial();
    forall s | 0 <= s < |r.services| ensures SlotInv(r.services[s].info) {
    }
  }

  predicate Permitted(q: Request) {
    |q.words| == MAPPING_MAX && SmallIds(q)
  }

  /** The registry after a sequence of messages, passing over those with IDs past the shift. */
  ghost function After(r: Registry, qs: seq<Request>): Registry
    requires Inv(r)
    decreases |qs|
  {
    if qs == [] then r
    else if !Permitted(qs[0]) then After(r, qs[1..])
    else
      HandleKeepsInv(r, qs[0]);
      After(Handle(r, qs[0]).0, qs[1..])
  }

  lemma {:induction false} AfterKeepsInv(r: Registry, qs: seq<Request>)
    requires Inv(r)
    ensures Inv(After(r, qs))
    decreases |qs|
  {
    hide Inv, Handle;
    if qs != [] {
      if !Permitted(qs[0]) {
        AfterKeepsInv(r, qs[1..]);
      } else {
        HandleKeepsInv(r, qs[0]);
        InvIsWellShaped(r);
        AfterKeepsInv(Handle(r, qs[0]).0, qs[1..]);
      }
    }
  }

  /** Bitmask and table agree in every reachable state. */
  lemma EveryReachableRegistryIsConsistent(qs: seq<Request>)
    ensures Inv(Initial()) && Inv(After(Initial(), qs))
  {
    InitialHoldsInv();
    AfterKeepsInv(Initial(), qs);
  }

  // ----- The "no empty mapping" branch

  function IdsBefore(info: seq<Info>, k: nat): set<nat>
    requires k <= |info|
  {
    if k == 0 then {} else IdsBefore(info, k - 1) + {info[k - 1].id}
  }

  lemma {:induction false} IdsBeforeMembers(info: seq<Info>, k: nat, b: nat)
    requires k <= |info| && b in IdsBefore(info, k)
    ensures exists i :: 0 <= i < k && info[i].id == b
  {
    if b != info[k - 1].id {
      IdsBeforeMembers(info, k - 1, b);
    }
  }

  lemma {:induction false} IdsAreDistinct(info: seq<Info>, k: nat)
    requires k <= |info|
    requires forall i, j :: 0 <= i < j < |info| ==> info[i].id != info[j].id
    ensures |IdsBefore(info, k)| == k
  {
    if k > 0 {
      IdsAreDistinct(info, k - 1);
      if info[k - 1].id in IdsBefore(info, k - 1) {
        IdsBeforeMembers(info, k - 1, info[k - 1].id);
      }
    }
  }

  function Below(n: nat): (bs: set<nat>)
    ensures forall b :: b in bs <==> 0 <= b < n
  {
    if n == 0 then {} else Below(n - 1) + {n - 1}
  }

  lemma {:induction false} BelowHasSize(n: nat)
    ensures |Below(n)| == n
  {
    if n > 0 {
      BelowHasSize(n - 1);
    }
  }

  lemma SubsetIsNoLarger(x: set<nat>, y: set<nat>)
    requires x <= y
    ensures |x| <= |y|
  {
    assert x + (y - x) == y;
  }

  /** Pigeonhole: a full slot of distinct IDs below 64 leaves no ID below 64 clear. */
  lemma FullSlotUsesEveryId(info: seq<Info>, b: nat)
    requires |info| == MAX_MAPPINGS && b < 64
    requires forall i :: 0 <= i < |info| ==> info[i].id < 64
    requires forall i, j :: 0 <= i < j < |info| ==> info[i].id != info[j].id
    ensures exists i :: 0 <= i < |info| && info[i].id == b
  {
    hide Below, IdsBefore;
    var ids, others := IdsBefore(info, MAX_MAPPINGS), Below(64) - {b};
    IdsAreDistinct(info, MAX_MAPPINGS);
    BelowHasSize(64);
    assert |others| == 63;
    if ids <= others {
      SubsetIsNoLarger(ids, others);
    }
    var c :| c in ids && c !in others;
    IdsBeforeMembers(info, MAX_MAPPINGS, c);
  }

  /** In a consistent registry a clear ID bit means every slot has an unused mapping, so no mapping
      is ever refused for lack of space. */
  lemma ClearBitMeansRoom(r: Registry, s: nat, b: nat)
    requires Inv(r) && s < |r.services| && b < 64 && b !in r.mask
    ensures UnusedFrom(r.services[s].info, 0) >= 0
  {
    var info := r.services[s].info;
    if UnusedFrom(info, 0) < 0 {
      assert SlotInv(info);
      forall i | 0 <= i < |info| ensures Carries(r, s, i, info[i].id) {
      }
      FullSlotUsesEveryId(info, b);
    }
  }

  lemma MappingIsNeverRefusedForSpace(r: Registry, s: nat, unregister: bool, source: nat, m: Mapping)
    requires Inv(r) && s < |r.services| && m.id <= MAX_ID
    ensures ApplyOne(unregister, source, m, r.services[s].info, r.mask).status != NoMem
  {
    hide Inv;
    if m.id !in r.mask {
      ClearBitMeansRoom(r, s, m.id);
    }
  }

  /** A registration runs out of memory only for want of a slot. */
  lemma {:induction false} UpdateNeverRunsOut(r: Registry, s: nat, unregister: bool, source: nat, ms: seq<Mapping>)
    requires Inv(r) && s < |r.services|
    requires forall k :: 0 <= k < |ms| ==> ms[k].id <= MAX_ID
    ensures ApplyAll(unregister, source, ms, r.services[s].info, r.mask).status != NoMem
    decreases |ms|
  {
    hide Inv, ApplyOne;
    if ms != [] {
      var a := ApplyOne(unregister, source, ms[0], r.services[s].info, r.mask);
      MappingIsNeverRefusedForSpace(r, s, unregister, source, ms[0]);
      if a.status == Success {
        ApplyOneKeepsInv(r, s, unregister, source, ms[0]);
        UpdateNeverRunsOut(Commit(r, s, a), s, unregister, source, ms[1..]);
      }
    }
  }

  // ----- What a refused request leaves behind

  /** How many mappings of the request were carried out before the first refusal. */
  function AcceptedCount(unregister: bool, source: nat, ms: seq<Mapping>, info: seq<Info>, mask: set<nat>): (k: nat)
    ensures k <= |ms|
  {
    if ms == [] then 0
    else
      var r := ApplyOne(unregister, source, ms[0], info, mask);
      if r.status != Success then 0 else 1 + AcceptedCount(unregister, source, ms[1..], r.info, r.mask)
  }

  /** A request refused at mapping `k` leaves the slot and the bitmask exactly as a request for its
      first `k` mappings would have, and the refusal is the verdict on mapping `k` in that state. */
  lemma {:induction false} RefusedRequestKeepsItsPrefix(
      unregister: bool, source: nat, ms: seq<Mapping>, info: seq<Info>, mask: set<nat>)
    ensures var k := AcceptedCount(unregister, source, ms, info, mask);
            var all := ApplyAll(unregister, source, ms, info, mask);
            var part := ApplyAll(unregister, source, ms[..k], info, mask);
            && part.status == Success && all.info == part.info && all.mask == part.mask
            && (all.status == Success <==> k == |ms|)
            && (k < |ms| ==> all.status == ApplyOne(unregister, source, ms[k], part.info, part.mask).status)
    decreases |ms|
  {
    hide ApplyOne;
    if ms != [] {
      var r := ApplyOne(unregister, source, ms[0], info, mask);
      RefusalChangesNothing(unregister, source, ms[0], info, mask);
      var k := AcceptedCount(unregister, source, ms, info, mask);
      if r.status == Success {
        RefusedRequestKeepsItsPrefix(unregister, source, ms[1..], r.info, r.mask);
        assert ms[..k][1..] == ms[1..][..k - 1];
      }
    }
  }

  lemma RefusalChangesNothing(unregister: bool, source: nat, m: Mapping, info: seq<Info>, mask: set<nat>)
    ensures var r := ApplyOne(unregister, source, m, info, mask);
            r.status != Success ==> r.info == info && r.mask == mask
  {
  }

  lemma {:induction false} RegisterOnlyAddsIds(source: nat, ms: seq<Mapping>, info: seq<Info>, mask: set<nat>)
    ensures mask <= ApplyAll(false, source, ms, info, mask).mask
    decreases |ms|
  {
    if ms != [] {
      var r := ApplyOne(false, source, ms[0], info, mask);
      if r.status == Success {
        RegisterOnlyAddsIds(source, ms[1..], r.info, r.mask);
      }
    }
  }

  lemma {:induction false} UnregisterOnlyRemovesIds(source: nat, ms: seq<Mapping>, info: seq<Info>, mask: set<nat>)
    ensures ApplyAll(true, source, ms, info, mask).mask <= mask
    decreases |ms|
  {
    if ms != [] {
      var r := ApplyOne(true, source, ms[0], info, mask);
      if r.status == Success {
        UnregisterOnlyRemovesIds(source, ms[1..], r.info, r.mask);
      }
    }
  }

  /** What a caller can check of one mapping: when registering, that its cookie is in use in the slot
      or its ID is taken; when unregistering, that no mapping in use has its cookie, ID and source. */
  ghost predicate Refusable(unregister: bool, source: nat, m: Mapping, info: seq<Info>, mask: set<nat>) {
    if unregister then
      forall i :: 0 <= i < |info| ==>
        !(info[i].inUse && info[i].cookie == m.cookie && info[i].id == m.id && info[i].source == source)
    else
      m.id in mask || exists i :: 0 <= i < |info| && info[i].inUse && info[i].cookie == m.cookie
  }

  lemma RefusableMeansRefused(r: Registry, s: nat, unregister: bool, source: nat, m: Mapping)
    requires Inv(r) && s < |r.services|
    ensures ApplyOne(unregister, source, m, r.services[s].info, r.mask).status != Success <==>
              Refusable(unregister, source, m, r.services[s].info, r.mask)
  {
    var info := r.services[s].info;
    assert SlotInv(info);
    SlotHasRoom(r, s);
    var found := CookieFrom(info, m.cookie, 0);
    if unregister && found >= 0 {
      assert forall i :: 0 <= i < |info| && info[i].inUse && info[i].cookie == m.cookie ==> i == found;
    }
  }

  /** A refused request changes nothing exactly when its first mapping can be seen to be refusable. */
  lemma RefusedRequestIsAtomicExactly(r: Registry, s: nat, unregister: bool, source: nat, ms: seq<Mapping>)
    requires Inv(r) && s < |r.services| && ms != []
    requires ApplyAll(unregister, source, ms, r.services[s].info, r.mask).status != Success
    ensures Commit(r, s, ApplyAll(unregister, source, ms, r.services[s].info, r.mask)) == r <==>
              Refusable(unregister, source, ms[0], r.services[s].info, r.mask)
  {
    var info := r.services[s].info;
    var one := ApplyOne(unregister, source, ms[0], info, r.mask);
    var all := ApplyAll(unregister, source, ms, info, r.mask);
    RefusableMeansRefused(r, s, unregister, source, ms[0]);
    CommitNothing(r, s);
    hide Refusable, Inv;
    if one.status == Success {
      InvParts(r, s);
      if unregister {
        UnregisterOneKeepsMask(r, s, source, ms[0]);
        UnregisterOnlyRemovesIds(source, ms[1..], one.info, one.mask);
        assert ms[0].id !in all.mask;
      } else {
        RegisterOnlyAddsIds(source, ms[1..], one.info, one.mask);
        assert ms[0].id in all.mask;
      }
    }
  }

  // ----- A slot that no service claimed

  predicate Registers(q: Request) {
    q.arg5 & 3 == 2
  }

  lemma HandleKeepsUnclaimed(r: Registry, q: Request, s: nat)
    requires WellShaped(r) && |q.words| == MAPPING_MAX && s < MAX_SERVICES
    requires !r.services[s].inUse && !Registers(q)
    ensures var r' := Handle(r, q).0;
            |r'.services| == MAX_SERVICES && r'.services[s] == r.services[s]
  {
    hide ApplyAll, UuidOf, SamePrefix;
  }

  /** Mappings in a slot without a service stay there through any run of messages that registers
      nothing. */
  lemma {:induction false} UnclaimedSlotIsFrozen(r: Registry, qs: seq<Request>, s: nat)
    requires Inv(r) && s < |r.services| && !r.services[s].inUse
    requires forall k :: 0 <= k < |qs| ==> !Registers(qs[k])
    ensures |After(r, qs).services| == MAX_SERVICES && After(r, qs).services[s] == r.services[s]
    decreases |qs|
  {
    hide Inv, Handle, Registers;
    InvIsWellShaped(r);
    if qs != [] {
      if !Permitted(qs[0]) {
        UnclaimedSlotIsFrozen(r, qs[1..], s);
      } else {
        HandleKeepsInv(r, qs[0]);
        HandleKeepsUnclaimed(r, qs[0], s);
        UnclaimedSlotIsFrozen(Handle(r, qs[0]).0, qs[1..], s);
      }
    }
  }

  // ----- Unregistering undoes registering

  /** `after` is `info` with mapping `ms[k]` entered at the unused place `ps[k]`, for every `k`. */
  ghost predicate Entered(source: nat, ms: seq<Mapping>, ps: seq<nat>, info: seq<Info>, after: seq<Info>) {
    && |ps| == |ms| && |after| == |info|
    && (forall k :: 0 <= k < |ps| ==>
          && ps[k] < |info| && info[ps[k]] == Info(0, 0, false, 0, false)
          && after[ps[k]] == Info(ms[k].cookie, ms[k].id, ms[k].perVcpu, source, true))
    && (forall k, j :: 0 <= k < j < |ps| ==> ps[k] != ps[j])
    && (forall i :: 0 <= i < |info| && i !in ps ==> after[i] == info[i])
  }

  ghost predicate UnusedAreZero(info: seq<Info>) {
    forall i :: 0 <= i < |info| ==> !info[i].inUse ==> info[i] == UNUSED
  }

  ghost predicate DistinctCookies(info: seq<Info>) {
    forall i, j :: 0 <= i < j < |info| && info[i].inUse && info[j].inUse ==> info[i].cookie != info[j].cookie
  }

  ghost function IdsOf(ms: seq<Mapping>): set<nat> {
    set k | 0 <= k < |ms| :: ms[k].id
  }

  ghost predicate DistinctIds(ms: seq<Mapping>) {
    forall k, j :: 0 <= k < j < |ms| ==> ms[k].id != ms[j].id
  }

  lemma {:induction false} RegisterEnters(source: nat, ms: seq<Mapping>, info: seq<Info>, mask: set<nat>)
      returns (ps: seq<nat>)
    requires UnusedAreZero(info) && DistinctCookies(info)
    requires ApplyAll(false, source, ms, info, mask).status == Success
    ensures var a := ApplyAll(false, source, ms, info, mask);
            && Entered(source, ms, ps, info, a.info) && UnusedAreZero(a.info) && DistinctCookies(a.info)
            && a.mask == mask + IdsOf(ms) && IdsOf(ms) !! mask && DistinctIds(ms)
    decreases |ms|
  {
    if ms == [] {
      ps := [];
    } else {
      var one := ApplyOne(false, source, ms[0], info, mask);
      var e := UnusedFrom(info, 0);
      var rest := RegisterEnters(source, ms[1..], one.info, one.mask);
      ps := [e as nat] + rest;
      EnteredCons(source, ms, rest, e, info, ApplyAll(false, source, ms, info, mask).info);
      IdsOfCons(ms);
      DistinctIdsCons(ms);
    }
  }

  lemma EnteredCons(source: nat, ms: seq<Mapping>, rest: seq<nat>, e: nat, info: seq<Info>, after: seq<Info>)
    requires ms != [] && e < |info| && info[e] == UNUSED
    requires Entered(source, ms[1..], rest, info[e := EntryFor(source, ms[0])], after)
    ensures Entered(source, ms, [e] + rest, info, after)
  {
    var ps := [e] + rest;
    forall k | 0 <= k < |ps|
      ensures ps[k] < |info| && info[ps[k]] == UNUSED && after[ps[k]] == EntryFor(source, ms[k])
      ensures k > 0 ==> ps[k] != e
    {
      if k > 0 {
        assert ps[k] == rest[k - 1] && ms[k] == ms[1..][k - 1];
      }
    }
    assert e !in rest;
    forall i | 0 <= i < |info| && i !in ps ensures after[i] == info[i] {
      assert i != ps[0] && i !in ps[1..] && ps[1..] == rest;
    }
  }

  lemma IdsOfCons(ms: seq<Mapping>)
    requires ms != []
    ensures IdsOf(ms) == {ms[0].id} + IdsOf(ms[1..])
  {
    forall b | b in IdsOf(ms) ensures b in {ms[0].id} + IdsOf(ms[1..]) {
      var k :| 0 <= k < |ms| && ms[k].id == b;
      if k > 0 {
        assert ms[1..][k - 1].id == b;
      }
    }
    forall b | b in {ms[0].id} + IdsOf(ms[1..]) ensures b in IdsOf(ms) {
      if b != ms[0].id {
        var k :| 0 <= k < |ms[1..]| && ms[1..][k].id == b;
        assert ms[k + 1].id == b;
      }
    }
  }

  lemma DistinctIdsCons(ms: seq<Mapping>)
    requires ms != [] && DistinctIds(ms[1..]) && ms[0].id !in IdsOf(ms[1..])
    ensures DistinctIds(ms)
  {
    forall k, j | 0 <= k < j < |ms| ensures ms[k].id != ms[j].id {
      assert ms[j] == ms[1..][j - 1];
      if k > 0 {
        assert ms[k] == ms[1..][k - 1];
      }
    }
  }

  lemma CookieIsFound(info: seq<Info>, i: nat)
    requires DistinctCookies(info) && i < |info| && info[i].inUse
    ensures CookieFrom(info, info[i].cookie, 0) == i
  {
  }

  /** Taking the first of the entered mappings out again. */
  lemma UnregisterFirst(source: nat, ms: seq<Mapping>, ps: seq<nat>, info: seq<Info>, after: seq<Info>, mask: set<nat>)
    requires ms != [] && Entered(source, ms, ps, info, after) && DistinctCookies(after)
    ensures ApplyOne(true, source, ms[0], after, mask) ==
              Applied(Success, after[ps[0] := UNUSED], mask - {ms[0].id})
    ensures Entered(source, ms[1..], ps[1..], info, after[ps[0] := UNUSED]) && DistinctCookies(after[ps[0] := UNUSED])
  {
    CookieIsFound(after, ps[0]);
    var left := after[ps[0] := UNUSED];
    forall i | 0 <= i < |info| && i !in ps[1..] ensures left[i] == info[i] {
      assert i == ps[0] || i !in ps;
    }
  }

  lemma {:induction false} UnregisterRemovesEntered(
      source: nat, ms: seq<Mapping>, ps: seq<nat>, info: seq<Info>, after: seq<Info>, mask: set<nat>)
    requires Entered(source, ms, ps, info, after) && DistinctCookies(after)
    ensures ApplyAll(true, source, ms, after, mask) == Applied(Success, info, mask - IdsOf(ms))
    decreases |ms|
  {
    if ms == [] {
      assert after == info;
      assert mask - IdsOf(ms) == mask;
    } else {
      hide ApplyOne, Entered, DistinctCookies;
      UnregisterFirst(source, ms, ps, info, after, mask);
      var left := ApplyOne(true, source, ms[0], after, mask);
      UnregisterRemovesEntered(source, ms[1..], ps[1..], info, left.info, left.mask);
      IdsOfCons(ms);
      assert left.mask - IdsOf(ms[1..]) == mask - IdsOf(ms);
    }
  }

  /** A successful registration followed by an unregistration of the same mappings from the same
      source restores the slot and the bitmask. */
  lemma UnregisterUndoesRegister(r: Registry, s: nat, source: nat, ms: seq<Mapping>)
    requires Inv(r) && s < |r.services|
    requires ApplyAll(false, source, ms, r.services[s].info, r.mask).status == Success
    ensures var a := ApplyAll(false, source, ms, r.services[s].info, r.mask);
            ApplyAll(true, source, ms, a.info, a.mask) == Applied(Success, r.services[s].info, r.mask)
  {
    var info := r.services[s].info;
    assert SlotInv(info);
    var a := ApplyAll(false, source, ms, info, r.mask);
    var ps := RegisterEnters(source, ms, info, r.mask);
    UnregisterRemovesEntered(source, ms, ps, info, a.info, a.mask);
    assert a.mask - IdsOf(ms) == r.mask;
  }

  // ----- Nobody else can take a mapping away

  lemma ApplyOneKeepsOthers(unregister: bool, source: nat, m: Mapping, info: seq<Info>, mask: set<nat>, i: nat)
    requires i < |info| && info[i].inUse && (unregister ==> info[i].source != source)
    ensures var a := ApplyOne(unregister, source, m, info, mask);
            |a.info| == |info| && a.info[i] == info[i]
  {
  }

  lemma {:induction false} ApplyAllKeepsOthers(
      unregister: bool, source: nat, ms: seq<Mapping>, info: seq<Info>, mask: set<nat>, i: nat)
    requires i < |info| && info[i].inUse && (unregister ==> info[i].source != source)
    ensures var a := ApplyAll(unregister, source, ms, info, mask);
            |a.info| == |info| && a.info[i] == info[i]
    decreases |ms|
  {
    hide ApplyOne;
    if ms != [] {
      ApplyOneKeepsOthers(unregister, source, ms[0], info, mask, i);
      var a := ApplyOne(unregister, source, ms[0], info, mask);
      if a.status == Success {
        ApplyAllKeepsOthers(unregister, source, ms[1..], a.info, a.mask, i);
      }
    }
  }

  /** A mapping in use, where it stands in the table. */
  ghost predicate Registered(r: Registry, s: nat, i: nat, e: Info) {
    s < |r.services| && i < |r.services[s].info| && r.services[s].info[i] == e && e.inUse
  }

  lemma UpdateKeepsOthers(r: Registry, unregister: bool, q: Request, t: nat, s: nat, i: nat, e: Info)
    requires t < |r.services| && |q.words| == MAPPING_MAX && Registered(r, s, i, e)
    requires unregister ==> e.source != q.source
    ensures Registered(Update(r, unregister, q, t).0, s, i, e)
  {
    hide ApplyAll;
    if s == t {
      ApplyAllKeepsOthers(unregister, q.source, Mappings(q), r.services[s].info, r.mask, i);
    }
  }

  lemma ClaimKeepsOthers(r: Registry, t: nat, uuid: seq<nat>, s: nat, i: nat, e: Info)
    requires t < |r.services| && Registered(r, s, i, e)
    ensures Registered(Claim(r, t, uuid), s, i, e)
  {
  }

  lemma HandleKeepsOthers(r: Registry, q: Request, s: nat, i: nat, e: Info)
    requires WellShaped(r) && |q.words| == MAPPING_MAX && Registered(r, s, i, e) && e.source != q.source
    ensures Registered(Handle(r, q).0, s, i, e)
  {
    hide Update, UuidOf;
    var uuid := UuidOf(q.arg3, q.arg4);
    var slot, known := SlotFor(r, uuid), Locate(r, uuid, false);
    if slot >= 0 {
      UpdateKeepsOthers(r, false, q, slot, s, i, e);
      UpdateKeepsUuids(r, false, q, slot);
      ClaimKeepsOthers(Update(r, false, q, slot).0, slot, uuid, s, i, e);
    }
    hide Claim;
    if known >= 0 {
      UpdateKeepsOthers(r, true, q, known, s, i, e);
    }
  }

  /** Over every run, a registered mapping stays in its place, unchanged, until the partition that
      registered it sends a message itself. */
  lemma {:induction false} MappingOutlivesOtherSources(r: Registry, qs: seq<Request>, s: nat, i: nat, e: Info)
    requires Inv(r) && Registered(r, s, i, e)
    requires forall k :: 0 <= k < |qs| ==> qs[k].source != e.source
    ensures Registered(After(r, qs), s, i, e)
    decreases |qs|
  {
    hide Inv, Handle, Registered;
    if qs != [] {
      if !Permitted(qs[0]) {
        MappingOutlivesOtherSources(r, qs[1..], s, i, e);
      } else {
        InvIsWellShaped(r);
        HandleKeepsInv(r, qs[0]);
        HandleKeepsOthers(r, qs[0], s, i, e);
        MappingOutlivesOtherSources(Handle(r, qs[0]).0, qs[1..], s, i, e);
      }
    }
  }

  // ----- Signalling

  /** The search of IdSet, which does not look at InUse, finds the registered mapping or nothing. */
  ghost predicate PicksRegistered(info: seq<Info>, cookie: nat) {
    AnyCookieFrom(info, cookie, 0) == CookieFrom(info, cookie, 0)
  }

  lemma NonZeroCookiePicksRegistered(info: seq<Info>, cookie: nat)
    requires SlotInv(info) && cookie != 0
    ensures PicksRegistered(info, cookie)
  {
    var any, found := AnyCookieFrom(info, cookie, 0), CookieFrom(info, cookie, 0);
    assert any >= 0 ==> info[any].inUse;
  }

  /** For every cookie but zero, exactly the registered notification is raised. */
  lemma IdSetSignalsTheRegistration(r: Registry, cookie: nat, uuid: seq<nat>, flag: bv32)
    requires Inv(r) && |uuid| == 16 && cookie != 0
    ensures IdSet(r, cookie, uuid, flag) == ExpectedSignal(r, cookie, uuid, flag)
  {
    var s := Locate(r, uuid, false);
    if s >= 0 {
      NonZeroCookiePicksRegistered(r.services[s].info, cookie);
    }
  }

  /** Cookie zero is registered, ahead of every unused mapping. */
  ghost predicate ZeroRegisteredFirst(info: seq<Info>) {
    exists i :: 0 <= i < |info| && info[i].cookie == 0 && forall j :: 0 <= j <= i ==> info[j].inUse
  }

  lemma SlotHasRoom(r: Registry, s: nat)
    requires Inv(r) && s < |r.services|
    ensures UnusedFrom(r.services[s].info, 0) >= 0
  {
    assert MAX_ID + 1 !in r.mask;
    ClearBitMeansRoom(r, s, MAX_ID + 1);
  }

  /** The search is right exactly when the cookie is not zero or zero is registered ahead of every
      unused mapping of the service. */
  lemma SearchIsRightExactly(r: Registry, s: nat, cookie: nat)
    requires Inv(r) && s < |r.services|
    ensures PicksRegistered(r.services[s].info, cookie) <==>
              cookie != 0 || ZeroRegisteredFirst(r.services[s].info)
  {
    var info := r.services[s].info;
    assert SlotInv(info);
    if cookie != 0 {
      NonZeroCookiePicksRegistered(info, cookie);
    } else {
      SlotHasRoom(r, s);
      ZeroCookie(info);
    }
  }

  lemma ZeroCookie(info: seq<Info>)
    requires SlotInv(info) && UnusedFrom(info, 0) >= 0
    ensures PicksRegistered(info, 0) <==> ZeroRegisteredFirst(info)
  {
    var any, u := AnyCookieFrom(info, 0, 0), UnusedFrom(info, 0);
    assert info[u] == UNUSED;
    assert 0 <= any <= u;
    if any == u {
      assert !info[any].inUse;
    }
  }

  /** When zero is not registered, asking for it signals partition 0 on notification 0. */
  lemma UnregisteredZeroStillSignals(r: Registry, uuid: seq<nat>, flag: bv32)
    requires Inv(r) && |uuid| == 16 && Locate(r, uuid, false) >= 0
    requires CookieFrom(r.services[Locate(r, uuid, false)].info, 0, 0) < 0
    ensures IdSet(r, 0, uuid, flag) == Signal(0, flag, 0)
    ensures ExpectedSignal(r, 0, uuid, flag) == NoSignal
  {
    var s := Locate(r, uuid, false);
    var info := r.services[s].info;
    SlotHasRoom(r, s);
    assert SlotInv(info);
    var any, u := AnyCookieFrom(info, 0, 0), UnusedFrom(info, 0);
    assert info[u] == UNUSED && 0 <= any <= u;
    assert info[any] == UNUSED;
  }

  lemma UuidFound(r: Registry, s: nat, uuid: seq<nat>)
    requires Inv(r) && s < |r.services| && |uuid| == 16 && Matches(r.services[s], uuid, false)
    ensures Locate(r, uuid, false) == s
  {
    var t := Locate(r, uuid, false);
    assert 0 <= t <= s && SamePrefix(r.services[t].uuid, r.services[s].uuid);
  }

  /** After a successful registration the service is found under its UUID, and its slot and the
      bitmask hold the outcome of the mappings. */
  lemma RegisteredSlot(r: Registry, q: Request)
    requires Inv(r) && Permitted(q) && Register(r, q).1 == Success
    ensures var uuid := UuidOf(q.arg3, q.arg4);
            var s, r' := SlotFor(r, uuid), Register(r, q).0;
            && 0 <= s && Inv(r') && Locate(r', uuid, false) == s
            && (forall t :: 0 <= t < MAX_SERVICES && t != s ==> r'.services[t] == r.services[t])
            && var a := ApplyAll(false, q.source, Mappings(q), r.services[s].info, r.mask);
               a.status == Success && r'.services[s].info == a.info && r'.mask == a.mask
  {
    hide ApplyAll, MaskInv, SlotInv, UuidInv, UuidOf, Mappings;
    var uuid := UuidOf(q.arg3, q.arg4);
    var s := SlotFor(r, uuid);
    RegisterKeepsInv(r, q);
    UpdateKeepsUuids(r, false, q, s);
    UuidFound(Register(r, q).0, s, uuid);
  }

  /** Two messages: a registration that succeeds, and an unregistration of the same words from the same
      source under the same upper UUID half. The second succeeds too, and together they restore every
      mapping of every slot and the bitmask. */
  lemma UnregisterMessageUndoesRegisterMessage(r: Registry, q: Request, q': Request)
    requires Inv(r) && Permitted(q) && Registers(q) && Handle(r, q).1 == Success
    requires q'.source == q.source && q'.words == q.words && q'.arg6 == q.arg6 && q'.arg5 & 3 == 3
    requires q'.arg4 == q.arg4 < 0x1_0000_0000_0000_0000
    ensures WellShaped(Handle(r, q).0)
    ensures var (r', status) := Handle(Handle(r, q).0, q');
            && status == Success && r'.mask == r.mask && |r'.services| == MAX_SERVICES
            && forall t :: 0 <= t < MAX_SERVICES ==> r'.services[t].info == r.services[t].info
  {
    hide ApplyAll, Mappings, UuidOf, Register;
    RegisteredSlot(r, q);
    var uuid, uuid' := UuidOf(q.arg3, q.arg4), UuidOf(q'.arg3, q'.arg4);
    var s, r1 := SlotFor(r, uuid), Register(r, q).0;
    ServicesDifferOnlyInUpperHalf(q'.arg3, q'.arg4, q.arg3, q.arg4);
    UuidFound(r1, s, uuid');
    UnregisterUndoesRegister(r, s, q.source, Mappings(q));
    assert Mappings(q') == Mappings(q) != [] by {
      SameWordsSameMappings(q, q');
      RegisteredSomething(r, q);
    }
  }

  lemma SameWordsSameMappings(q: Request, q': Request)
    requires |q.words| == MAPPING_MAX && q'.words == q.words && q'.arg6 == q.arg6
    ensures Mappings(q') == Mappings(q)
  {
  }

  lemma RegisteredSomething(r: Registry, q: Request)
    requires WellShaped(r) && |q.words| == MAPPING_MAX && Register(r, q).1 == Success
    ensures Mappings(q) != []
  {
    hide ApplyAll;
  }

  /** Registering a mapping with a non-zero cookie makes that cookie signal the registering
      partition, with the registered ID and per-vCPU flag. */
  lemma RegisteredCookieSignalsItsSource(r: Registry, q: Request, k: nat, flag: bv32)
    requires Inv(r) && Permitted(q) && Register(r, q).1 == Success
    requires k < |Mappings(q)| && Mappings(q)[k].cookie != 0
    ensures WellShaped(Register(r, q).0)
    ensures var m := Mappings(q)[k];
            IdSet(Register(r, q).0, m.cookie, UuidOf(q.arg3, q.arg4), flag) ==
              Signal(q.source, if m.perVcpu then flag | 1 else flag, m.id)
  {
    hide Register, ApplyAll, Mappings, UuidOf, IdSet;
    RegisteredSlot(r, q);
    var uuid := UuidOf(q.arg3, q.arg4);
    var s := SlotFor(r, uuid);
    var m := Mappings(q)[k];
    assert SlotInv(r.services[s].info);
    var ps := RegisterEnters(q.source, Mappings(q), r.services[s].info, r.mask);
    var r' := Register(r, q).0;
    CookieIsFound(r'.services[s].info, ps[k]);
    IdSetSignalsTheRegistration(r', m.cookie, uuid, flag);
  }

  // ----- Only the upper half of a UUID counts

  function Join(x: nat, k: nat): nat {
    if k == 0 then 0 else Join(x / 256, k - 1) * 256 + x % 256
  }

  lemma {:induction false} BytesDetermine(x: nat, y: nat, k: nat)
    requires forall i :: 0 <= i < k ==> ByteOf(x, i) == ByteOf(y, i)
    ensures Join(x, k) == Join(y, k)
  {
    if k > 0 {
      assert ByteOf(x, 0) == ByteOf(y, 0);
      forall i | 0 <= i < k - 1 ensures ByteOf(x / 256, i) == ByteOf(y / 256, i) {
        assert ByteOf(x, i + 1) == ByteOf(y, i + 1);
      }
      BytesDetermine(x / 256, y / 256, k - 1);
    }
  }

  lemma {:induction false} JoinIsWhole(x: nat, k: nat)
    requires x < Pow256(k)
    ensures Join(x, k) == x
  {
    if k > 0 {
      JoinIsWhole(x / 256, k - 1);
    }
  }

  /** Two UUIDs name the same service exactly when their x8 registers agree, whatever is in x7. */
  lemma ServicesDifferOnlyInUpperHalf(lo: nat, hi: nat, lo': nat, hi': nat)
    requires hi < 0x1_0000_0000_0000_0000 && hi' < 0x1_0000_0000_0000_0000
    ensures SamePrefix(UuidOf(lo, hi), UuidOf(lo', hi')) <==> hi == hi'
  {
    var u, v := UuidOf(lo, hi), UuidOf(lo', hi');
    if hi == hi' {
      assert forall i :: 0 <= i < 8 ==> u[i] == UuidByte(lo, hi, i) == UuidByte(lo', hi', i) == v[i];
    }
    if u[..8] == v[..8] {
      forall i | 0 <= i < 8 ensures ByteOf(hi, i) == ByteOf(hi', i) {
        assert u[..8][7 - i] == UuidByte(lo, hi, 7 - i);
        assert v[..8][7 - i] == UuidByte(lo', hi', 7 - i);
      }
      BytesDetermine(hi, hi', 8);
      assert Pow256(8) == 0x1_0000_0000_0000_0000 by {
        assert Pow256(4) == 0x1_0000_0000;
      }
      JoinIsWhole(hi, 8);
      JoinIsWhole(hi', 8);
    }
  }

  // ----- Concrete messages

  lemma Digits(q: nat, r: nat, d: nat)
    requires r < d
    ensures (q * d + r) / d == q && (q * d + r) % d == r
  {
    var x := q * d + r;
    var gap, rest := q - x / d, x % d;
    assert gap * d == rest - r;
    assert gap >= 1 ==> gap * d >= d;
    assert gap <= -1 ==> gap * d + d <= 0;
  }

  /** A mapping word: the per-vCPU bit, 22 reserved bits, nine bits of ID and 32 of cookie. */
  function Word(m: Mapping, reserved: nat): nat {
    m.cookie * 0x1_0000_0000 + m.id * 0x80_0000 + reserved * 2 + if m.perVcpu then 1 else 0
  }

  lemma WordIsDecoded(m: Mapping, reserved: nat)
    requires m.id < 0x200 && m.cookie < 0x1_0000_0000 && reserved < 0x40_0000
    ensures DecodeMapping(Word(m, reserved)) == m
  {
    var flag := if m.perVcpu then 1 else 0;
    var low, upper := reserved * 2 + flag, m.cookie * 0x200 + m.id;
    Digits(m.cookie, m.id, 0x200);
    Digits(upper, low, 0x80_0000);
    Digits(m.cookie, m.id * 0x80_0000 + low, 0x1_0000_0000);
    Digits(upper * 0x40_0000 + reserved, flag, 2);
    Digits(0, m.cookie, 0x1_0000_0000);
    assert Word(m, reserved) == upper * 0x80_0000 + low == m.cookie * 0x1_0000_0000 + (m.id * 0x80_0000 + low)
             == (upper * 0x40_0000 + reserved) * 2 + flag;
  }

  function OneMapping(source: nat, lo: nat, hi: nat, opcode: bv64, m: Mapping): Request {
    Request(source, 0, 0, lo, hi, opcode, 1, [Word(m, 0), 0, 0, 0, 0, 0, 0])
  }

  function TwoMappings(source: nat, lo: nat, hi: nat, m: Mapping, m': Mapping): Request {
    Request(source, 0, 0, lo, hi, 2, 2, [Word(m, 0), Word(m', 0), 0, 0, 0, 0, 0])
  }

  lemma OneMappingCarries(source: nat, lo: nat, hi: nat, opcode: bv64, m: Mapping)
    requires m.id <= MAX_ID && m.cookie < 0x1_0000_0000
    ensures Mappings(OneMapping(source, lo, hi, opcode, m)) == [m]
    ensures Permitted(OneMapping(source, lo, hi, opcode, m))
  {
    WordIsDecoded(m, 0);
  }

  lemma TwoMappingsCarries(source: nat, lo: nat, hi: nat, m: Mapping, m': Mapping)
    requires m.id <= MAX_ID && m.cookie < 0x1_0000_0000 && m'.id <= MAX_ID && m'.cookie < 0x1_0000_0000
    ensures Mappings(TwoMappings(source, lo, hi, m, m')) == [m, m']
    ensures Permitted(TwoMappings(source, lo, hi, m, m'))
  {
    hide DecodeMapping, Word;
    WordIsDecoded(m, 0);
    WordIsDecoded(m', 0);
  }

  /** The empty registry puts a first service into slot 0, at its first mapping. */
  lemma FirstRegistration(lo: nat, hi: nat, source: nat, m: Mapping)
    ensures SlotFor(Initial(), UuidOf(lo, hi)) == 0
    ensures ApplyOne(false, source, m, Initial().services[0].info, {}) ==
              Applied(Success, Initial().services[0].info[0 := EntryFor(source, m)], {m.id})
  {
    hide UuidOf;
    var info := Initial().services[0].info;
    assert UnusedFrom(info, 0) == 0;
    assert CookieFrom(info, m.cookie, 0) == -1;
    assert Locate(Initial(), UuidOf(lo, hi), false) == -1;
    assert Matches(Initial().services[0], UuidOf(lo, hi), true);
  }

  /** A slot with one mapping, in its first place. */
  function FirstPlaceTaken(source: nat, id: nat, cookie: nat): seq<Info> {
    Initial().services[0].info[0 := EntryFor(source, Mapping(id, cookie, false))]
  }

  /** Two mappings with the same ID, sent to the empty registry: the request is refused, and ID 1 is
      taken all the same. */
  lemma PartialCommitExample()
    ensures var q := TwoMappings(7, 0, 0, Mapping(1, 5, false), Mapping(1, 6, false));
            && Permitted(q)
            && Handle(Initial(), q).1 == InvalidParameter
            && Handle(Initial(), q).0.mask == {1} != Initial().mask
            && Handle(Initial(), q).0 == Commit(Initial(), 0, Applied(InvalidParameter, FirstPlaceTaken(7, 1, 5), {1}))
  {
    hide UuidOf, Mappings;
    var m, m' := Mapping(1, 5, false), Mapping(1, 6, false);
    var q := TwoMappings(7, 0, 0, m, m');
    TwoMappingsCarries(7, 0, 0, m, m');
    FirstRegistration(0, 0, 7, m);
    var info := Initial().services[0].info;
    var one := info[0 := EntryFor(7, m)];
    assert ApplyOne(false, 7, m', one, {1}) == Applied(InvalidParameter, one, {1});
    assert ApplyAll(false, 7, [m'], one, {1}) == Applied(InvalidParameter, one, {1});
    assert [m, m'][1..] == [m'];
    assert ApplyAll(false, 7, [m, m'], info, {}) == Applied(InvalidParameter, one, {1});
    assert q.arg5 & 3 == 2;
  }

  lemma OneRegistration(lo: nat, hi: nat, m: Mapping)
    requires m.id <= MAX_ID && m.cookie < 0x1_0000_0000
    ensures var q := OneMapping(7, lo, hi, 2, m);
            && Permitted(q) && Registers(q) && Inv(Initial())
            && Handle(Initial(), q).1 == Success
            && Inv(Handle(Initial(), q).0) && Locate(Handle(Initial(), q).0, UuidOf(lo, hi), false) == 0
            && Handle(Initial(), q).0.services[0].info == Initial().services[0].info[0 := EntryFor(7, m)]
  {
    hide UuidOf, Mappings, Inv, ApplyOne;
    var q := OneMapping(7, lo, hi, 2, m);
    OneMappingCarries(7, lo, hi, 2, m);
    FirstRegistration(lo, hi, 7, m);
    InitialHoldsInv();
    var info := Initial().services[0].info;
    var one := info[0 := EntryFor(7, m)];
    assert ApplyAll(false, 7, [], one, {m.id}) == Applied(Success, one, {m.id});
    assert [m][1..] == [];
    assert ApplyAll(false, 7, [m], info, {}) == Applied(Success, one, {m.id});
    assert q.arg5 & 3 == 2;
    assert Register(Initial(), q).1 == Success;
    RegisteredSlot(Initial(), q);
  }

  /** With one mapping registered under cookie 5, asking for cookie 0 signals partition 0. */
  lemma ZeroCookieExample(flag: bv32)
    ensures var q := OneMapping(7, 0, 0, 2, Mapping(1, 5, false));
            && Permitted(q) && WellShaped(Handle(Initial(), q).0)
            && Handle(Initial(), q).1 == Success
            && IdSet(Handle(Initial(), q).0, 0, UuidOf(0, 0), flag) == Signal(0, flag, 0)
  {
    hide UuidOf, Handle, IdSet, Mappings;
    var m := Mapping(1, 5, false);
    OneRegistration(0, 0, m);
    var r := Handle(Initial(), OneMapping(7, 0, 0, 2, m)).0;
    var info := r.services[0].info;
    assert CookieFrom(info, 0, 0) == -1;
    UnregisteredZeroStillSignals(r, UuidOf(0, 0), flag);
  }

  /** A mapping registered under the UUID (1, 9) is unregistered under the UUID (2, 9). */
  lemma UuidHalfExample()
    ensures var m := Mapping(1, 5, false);
            var q, q' := OneMapping(7, 1, 9, 2, m), OneMapping(7, 2, 9, 3, m);
            && UuidOf(1, 9) != UuidOf(2, 9) && Permitted(q) && Permitted(q')
            && Handle(Initial(), q).1 == Success && WellShaped(Handle(Initial(), q).0)
            && Handle(Handle(Initial(), q).0, q').1 == Success
  {
    var m := Mapping(1, 5, false);
    var q, q' := OneMapping(7, 1, 9, 2, m), OneMapping(7, 2, 9, 3, m);
    assert UuidOf(1, 9)[15] == 1 && UuidOf(2, 9)[15] == 2;
    hide UuidOf, Handle, Mappings;
    OneMappingCarries(7, 2, 9, 3, m);
    OneRegistration(1, 9, m);
    assert q'.arg5 & 3 == 3;
    UnregisterMessageUndoesRegisterMessage(Initial(), q, q');
  }
}
