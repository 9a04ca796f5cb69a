/** What each message to the notification service does, told from its registers. */
module NotificationMeaning {
  import opened Notification
  import opened NotificationTheorems
  import opened Powers

  /** At start-up nothing is taken, claimed or mapped. */
  lemma NothingAtStart()
    ensures Initial().mask == {} && |Initial().services| == 16
    ensures forall s :: 0 <= s < 16 ==>
              && !Initial().services[s].inUse && |Initial().services[s].info| == 64
              && forall i :: 0 <= i < 64 ==> Initial().services[s].info[i] == Info(0, 0, false, 0, false)
  {
  }

  // ----- The words of a message

  /** The request carries these mappings: their number in the low byte of x10, their words from x11 on,
      whatever else those registers hold. */
  ghost predicate Carrying(q: Request, ms: seq<Mapping>) {
    && |q.words| == 7 && q.arg6 % 256 == |ms|
    && forall k :: 0 <= k < |ms| && k < 7 ==>
         ms[k].id < 0x200 && ms[k].cookie < 0x1_0000_0000
         && exists reserved :: 0 <= reserved < 0x40_0000 && q.words[k] == Word(ms[k], reserved)
  }

  /** One to seven mappings are read back as they were sent; any other number is none. */
  lemma MappingsAreRead(q: Request, ms: seq<Mapping>)
    requires Carrying(q, ms)
    ensures Mappings(q) == if 1 <= |ms| <= 7 then ms else []
  {
    hide DecodeMapping, Word;
    if 1 <= |ms| <= 7 {
      forall k | 0 <= k < |ms| ensures Mappings(q)[k] == ms[k] {
        var reserved :| 0 <= reserved < 0x40_0000 && q.words[k] == Word(ms[k], reserved);
        WordIsDecoded(ms[k], reserved);
      }
    }
  }

  function BigEndian(bytes: seq<nat>): nat {
    if bytes == [] then 0 else BigEndian(bytes[..|bytes| - 1]) * 256 + bytes[|bytes| - 1]
  }

  lemma {:induction false} JoinIsBigEndian(x: nat, bytes: seq<nat>)
    requires forall i :: 0 <= i < |bytes| ==> bytes[i] == ByteOf(x, |bytes| - 1 - i)
    ensures BigEndian(bytes) == Join(x, |bytes|)
  {
    if bytes != [] {
      var front := bytes[..|bytes| - 1];
      assert bytes[|bytes| - 1] == ByteOf(x, 0);
      forall i | 0 <= i < |front| ensures front[i] == ByteOf(x / 256, |front| - 1 - i) {
        assert front[i] == bytes[i] == ByteOf(x, |bytes| - 1 - i);
      }
      JoinIsBigEndian(x / 256, front);
    }
  }

  /** The UUID is x8 and then x7, each most significant byte first. */
  lemma UuidIsBigEndian(lo: nat, hi: nat)
    requires lo < 0x1_0000_0000_0000_0000 && hi < 0x1_0000_0000_0000_0000
    ensures BigEndian(UuidOf(lo, hi)[..8]) == hi && BigEndian(UuidOf(lo, hi)[8..]) == lo
    ensures forall i :: 0 <= i < 16 ==> UuidOf(lo, hi)[i] < 256
  {
    var u := UuidOf(lo, hi);
    forall i | 0 <= i < 16 ensures u[i] == UuidByte(lo, hi, i) < 256 {
      ByteIsSmall(hi, if i < 8 then 7 - i else 0);
      ByteIsSmall(lo, if i < 8 then 0 else 15 - i);
    }
    JoinIsBigEndian(hi, u[..8]);
    JoinIsBigEndian(lo, u[8..]);
    assert Pow256(8) == 0x1_0000_0000_0000_0000 by {
      assert Pow256(4) == 0x1_0000_0000;
    }
    JoinIsWhole(hi, 8);
    JoinIsWhole(lo, 8);
  }

  lemma {:induction false} ByteIsSmall(x: nat, k: nat)
    ensures ByteOf(x, k) < 256
  {
    if k > 0 {
      ByteIsSmall(x / 256, k - 1);
    }
  }

  // ----- When a request succeeds, and what it then does

  predicate InUseWith(e: Info, cookie: nat) {
    e.inUse && e.cookie == cookie
  }

  /** No ID is taken, no cookie is in use in the slot, and neither occurs twice in the request. */
  ghost predicate Registrable(ms: seq<Mapping>, info: seq<Info>, mask: set<nat>) {
    && (forall k :: 0 <= k < |ms| ==> ms[k].id !in mask)
    && (forall k, i :: 0 <= k < |ms| && 0 <= i < |info| ==> !InUseWith(info[i], ms[k].cookie))
    && (forall k, j :: 0 <= k < j < |ms| ==> ms[k].id != ms[j].id && ms[k].cookie != ms[j].cookie)
  }

  /** Every mapping is in the slot with its cookie, its ID and this source, and none occurs twice. */
  ghost predicate Unregistrable(source: nat, ms: seq<Mapping>, info: seq<Info>) {
    && (forall k :: 0 <= k < |ms| ==> HeldBy(source, ms[k], info))
    && (forall k, j :: 0 <= k < j < |ms| ==> ms[k].cookie != ms[j].cookie)
  }

  ghost predicate HeldBy(source: nat, m: Mapping, info: seq<Info>) {
    exists i :: 0 <= i < |info| && InUseWith(info[i], m.cookie) && info[i].id == m.id && info[i].source == source
  }

  lemma RegistrableCons(source: nat, ms: seq<Mapping>, info: seq<Info>, mask: set<nat>, e: nat)
    requires ms != [] && e < |info| && !info[e].inUse
    requires !Refusable(false, source, ms[0], info, mask)
    ensures var entry := Info(ms[0].cookie, ms[0].id, ms[0].perVcpu, source, true);
            Registrable(ms, info, mask) <==> Registrable(ms[1..], info[e := entry], mask + {ms[0].id})
  {
    var entry := Info(ms[0].cookie, ms[0].id, ms[0].perVcpu, source, true);
    var rest, info', mask' := ms[1..], info[e := entry], mask + {ms[0].id};
    assert forall k :: 0 < k < |ms| ==> ms[k] == rest[k - 1];
    assert forall k :: 0 <= k < |rest| ==> rest[k] == ms[k + 1];
    if Registrable(ms, info, mask) {
      forall k, i | 0 <= k < |rest| && 0 <= i < |info'| ensures !InUseWith(info'[i], rest[k].cookie) {
        assert !InUseWith(info[i], ms[k + 1].cookie);
      }
    }
    if Registrable(rest, info', mask') {
      forall k, i | 0 <= k < |ms| && 0 <= i < |info| ensures !InUseWith(info[i], ms[k].cookie) {
        if k > 0 {
          assert !InUseWith(info'[i], rest[k - 1].cookie);
        }
      }
      forall k | 0 < k < |ms| ensures ms[0].id != ms[k].id && ms[0].cookie != ms[k].cookie {
        assert !InUseWith(info'[e], rest[k - 1].cookie);
      }
    }
  }

  lemma RefusableIsNotRegistrable(source: nat, ms: seq<Mapping>, info: seq<Info>, mask: set<nat>)
    requires ms != [] && Refusable(false, source, ms[0], info, mask)
    ensures !Registrable(ms, info, mask)
  {
    if ms[0].id !in mask {
      var i :| 0 <= i < |info| && info[i].inUse && info[i].cookie == ms[0].cookie;
      assert InUseWith(info[i], ms[0].cookie);
    }
  }

  /** What one accepted mapping does. */
  lemma RegisterOneMeans(r: Registry, s: nat, source: nat, m: Mapping) returns (e: nat)
    requires Inv(r) && s < |r.services| && !Refusable(false, source, m, r.services[s].info, r.mask)
    ensures e < |r.services[s].info| && r.services[s].info[e] == Info(0, 0, false, 0, false)
    ensures ApplyOne(false, source, m, r.services[s].info, r.mask) ==
              Applied(Success, r.services[s].info[e := Info(m.cookie, m.id, m.perVcpu, source, true)], r.mask + {m.id})
  {
    RefusableMeansRefused(r, s, false, source, m);
    var info := r.services[s].info;
    assert SlotInv(info);
    e := UnusedFrom(info, 0);
  }

  /** A registration of these mappings in slot `s` succeeds if and only if no ID is taken, no cookie is in
      use there and none is repeated; otherwise it is an invalid parameter. */
  lemma {:induction false} RegisterSucceedsExactly(r: Registry, s: nat, source: nat, ms: seq<Mapping>)
    requires Inv(r) && s < |r.services|
    requires forall k :: 0 <= k < |ms| ==> ms[k].id <= MAX_ID
    ensures ApplyAll(false, source, ms, r.services[s].info, r.mask).status ==
              if Registrable(ms, r.services[s].info, r.mask) then Success else InvalidParameter
    decreases |ms|
  {
    hide Inv, ApplyOne, Refusable, Registrable;
    var info := r.services[s].info;
    if ms == [] {
      NothingIsRegistrable(info, r.mask);
    } else if Refusable(false, source, ms[0], info, r.mask) {
      RefusedOne(r, s, false, source, ms[0]);
      RefusableIsNotRegistrable(source, ms, info, r.mask);
    } else {
      var e := RegisterOneMeans(r, s, source, ms[0]);
      var a := ApplyOne(false, source, ms[0], info, r.mask);
      ApplyOneKeepsInv(r, s, false, source, ms[0]);
      RegistrableCons(source, ms, info, r.mask, e);
      RegisterSucceedsExactly(Commit(r, s, a), s, source, ms[1..]);
    }
  }

  lemma NothingIsRegistrable(info: seq<Info>, mask: set<nat>)
    ensures Registrable([], info, mask)
  {
  }

  lemma RefusedOne(r: Registry, s: nat, unregister: bool, source: nat, m: Mapping)
    requires Inv(r) && s < |r.services| && m.id <= MAX_ID
    requires Refusable(unregister, source, m, r.services[s].info, r.mask)
    ensures ApplyOne(unregister, source, m, r.services[s].info, r.mask).status == InvalidParameter
  {
    RefusableMeansRefused(r, s, unregister, source, m);
    MappingIsNeverRefusedForSpace(r, s, unregister, source, m);
  }

  // ----- Unregistering

  /** The slot with every mapping of these cookies erased. */
  ghost predicate Erased(ms: seq<Mapping>, info: seq<Info>, info': seq<Info>) {
    && |info'| == |info|
    && forall i :: 0 <= i < |info| ==>
         info'[i] == if exists k :: 0 <= k < |ms| && InUseWith(info[i], ms[k].cookie)
                     then Info(0, 0, false, 0, false) else info[i]
  }

  lemma UnregisterOneMeans(r: Registry, s: nat, source: nat, m: Mapping) returns (f: nat)
    requires Inv(r) && s < |r.services| && !Refusable(true, source, m, r.services[s].info, r.mask)
    ensures f < |r.services[s].info| && InUseWith(r.services[s].info[f], m.cookie)
    ensures r.services[s].info[f].id == m.id && r.services[s].info[f].source == source
    ensures ApplyOne(true, source, m, r.services[s].info, r.mask) ==
              Applied(Success, r.services[s].info[f := Info(0, 0, false, 0, false)], r.mask - {m.id})
  {
    RefusableMeansRefused(r, s, true, source, m);
    f := CookieFrom(r.services[s].info, m.cookie, 0);
  }

  lemma ErasedCons(ms: seq<Mapping>, info: seq<Info>, f: nat, info': seq<Info>)
    requires ms != [] && f < |info| && InUseWith(info[f], ms[0].cookie) && DistinctCookies(info)
    requires Erased(ms[1..], info[f := Info(0, 0, false, 0, false)], info')
    ensures Erased(ms, info, info')
  {
    var left := info[f := Info(0, 0, false, 0, false)];
    forall i | 0 <= i < |info|
      ensures info'[i] == if exists k :: 0 <= k < |ms| && InUseWith(info[i], ms[k].cookie)
                          then Info(0, 0, false, 0, false) else info[i]
    {
      if i == f {
        assert InUseWith(info[i], ms[0].cookie);
        assert forall k :: 0 <= k < |ms[1..]| ==> !InUseWith(left[i], ms[1..][k].cookie);
      } else {
        assert left[i] == info[i] && !InUseWith(info[i], ms[0].cookie);
        assert forall k :: 0 < k < |ms| ==> ms[k] == ms[1..][k - 1];
        assert forall k :: 0 <= k < |ms[1..]| ==> ms[1..][k] == ms[k + 1];
      }
    }
  }

  lemma HeldAfterErasing(source: nat, m: Mapping, info: seq<Info>, f: nat, cookie: nat)
    requires f < |info| && InUseWith(info[f], cookie) && DistinctCookies(info)
    ensures HeldBy(source, m, info[f := Info(0, 0, false, 0, false)]) <==> HeldBy(source, m, info) && m.cookie != cookie
  {
    var left := info[f := Info(0, 0, false, 0, false)];
    if HeldBy(source, m, left) {
      var i :| 0 <= i < |left| && InUseWith(left[i], m.cookie) && left[i].id == m.id && left[i].source == source;
      assert i != f && info[i] == left[i];
    }
    if HeldBy(source, m, info) && m.cookie != cookie {
      var i :| 0 <= i < |info| && InUseWith(info[i], m.cookie) && info[i].id == m.id && info[i].source == source;
      assert i != f && info[i] == left[i];
    }
  }

  lemma UnregistrableCons(source: nat, ms: seq<Mapping>, info: seq<Info>, f: nat)
    requires ms != [] && f < |info| && InUseWith(info[f], ms[0].cookie) && DistinctCookies(info)
    requires info[f].id == ms[0].id && info[f].source == source
    ensures Unregistrable(source, ms, info) <==>
              Unregistrable(source, ms[1..], info[f := Info(0, 0, false, 0, false)])
  {
    hide HeldBy;
    var rest, left := ms[1..], info[f := Info(0, 0, false, 0, false)];
    assert HeldBy(source, ms[0], info) by {
      HeldHere(source, ms[0], info, f);
    }
    forall k | 0 <= k < |rest|
      ensures rest[k] == ms[k + 1]
      ensures HeldBy(source, rest[k], left) <==> HeldBy(source, ms[k + 1], info) && ms[k + 1].cookie != ms[0].cookie
    {
      HeldAfterErasing(source, rest[k], info, f, ms[0].cookie);
    }
    assert forall k :: 0 < k < |ms| ==> ms[k] == rest[k - 1];
    if Unregistrable(source, rest, left) {
      forall k | 0 <= k < |ms| ensures HeldBy(source, ms[k], info) && (k > 0 ==> ms[0].cookie != ms[k].cookie) {
        if k > 0 {
          assert HeldBy(source, rest[k - 1], left);
        }
      }
    }
  }

  lemma HeldHere(source: nat, m: Mapping, info: seq<Info>, f: nat)
    requires f < |info| && InUseWith(info[f], m.cookie) && info[f].id == m.id && info[f].source == source
    ensures HeldBy(source, m, info)
  {
  }

  /** An unregistration from slot `s` succeeds if and only if the slot holds every mapping for this source and
      none is repeated; then exactly those are erased and their IDs freed, and otherwise it is an invalid
      parameter. */
  lemma {:induction false} UnregisterSucceedsExactly(r: Registry, s: nat, source: nat, ms: seq<Mapping>)
    requires Inv(r) && s < |r.services|
    requires forall k :: 0 <= k < |ms| ==> ms[k].id <= MAX_ID
    ensures var a := ApplyAll(true, source, ms, r.services[s].info, r.mask);
            && a.status == (if Unregistrable(source, ms, r.services[s].info) then Success else InvalidParameter)
            && (a.status == Success ==> Erased(ms, r.services[s].info, a.info) && a.mask == r.mask - IdsOf(ms))
    decreases |ms|
  {
    hide Inv, ApplyOne, Refusable, Unregistrable, Erased;
    var info := r.services[s].info;
    if ms == [] {
      NothingIsErased(source, info);
      assert r.mask - IdsOf(ms) == r.mask;
    } else if Refusable(true, source, ms[0], info, r.mask) {
      RefusedOne(r, s, true, source, ms[0]);
      NotHeldMeansRefusable(source, ms, info, r.mask);
    } else {
      var f := UnregisterOneMeans(r, s, source, ms[0]);
      var a := ApplyOne(true, source, ms[0], info, r.mask);
      ApplyOneKeepsInv(r, s, true, source, ms[0]);
      assert DistinctCookies(info) by {
        SlotIsDistinct(r, s);
      }
      UnregistrableCons(source, ms, info, f);
      UnregisterSucceedsExactly(Commit(r, s, a), s, source, ms[1..]);
      IdsOfCons(ms);
      var all := ApplyAll(true, source, ms, info, r.mask);
      if all.status == Success {
        ErasedCons(ms, info, f, all.info);
        assert a.mask - IdsOf(ms[1..]) == r.mask - IdsOf(ms);
      }
    }
  }

  lemma NothingIsErased(source: nat, info: seq<Info>)
    ensures Unregistrable(source, [], info) && Erased([], info, info)
  {
  }

  lemma NotHeldMeansRefusable(source: nat, ms: seq<Mapping>, info: seq<Info>, mask: set<nat>)
    requires ms != [] && Refusable(true, source, ms[0], info, mask)
    ensures !Unregistrable(source, ms, info)
  {
    assert !HeldBy(source, ms[0], info);
  }

  lemma SlotIsDistinct(r: Registry, s: nat)
    requires Inv(r) && s < |r.services|
    ensures DistinctCookies(r.services[s].info) && UnusedAreZero(r.services[s].info)
  {
    assert SlotInv(r.services[s].info);
  }

  // ----- Whole messages

  /** Slot `s` is claimed by a service with these first eight UUID bytes. */
  predicate ServiceAt(r: Registry, s: nat, uuid: seq<nat>)
    requires |uuid| == 16
  {
    s < |r.services| && r.services[s].inUse && |r.services[s].uuid| == 16 && r.services[s].uuid[..8] == uuid[..8]
  }

  ghost predicate Unknown(r: Registry, uuid: seq<nat>)
    requires |uuid| == 16
  {
    forall s: nat :: s < |r.services| ==> !ServiceAt(r, s, uuid)
  }

  /** The slot a registration goes to: the service's own, or the first that nobody has claimed. */
  ghost predicate GoesTo(r: Registry, uuid: seq<nat>, s: nat)
    requires |uuid| == 16
  {
    || ServiceAt(r, s, uuid)
    || (&& Unknown(r, uuid) && s < |r.services| && !r.services[s].inUse
        && forall t :: 0 <= t < s ==> r.services[t].inUse)
  }

  lemma LocateMeans(r: Registry, uuid: seq<nat>, s: nat)
    requires Inv(r) && WellShaped(r) && |uuid| == 16
    ensures ServiceAt(r, s, uuid) ==> Locate(r, uuid, false) == s
    ensures Unknown(r, uuid) <==> Locate(r, uuid, false) < 0
    ensures GoesTo(r, uuid, s) ==> SlotFor(r, uuid) == s
    ensures Unknown(r, uuid) && (forall t :: 0 <= t < |r.services| ==> r.services[t].inUse) ==> SlotFor(r, uuid) < 0
  {
    if ServiceAt(r, s, uuid) {
      UuidFound(r, s, uuid);
    }
    var known := Locate(r, uuid, false);
    if known >= 0 {
      assert ServiceAt(r, known, uuid);
    } else {
      forall t: nat | t < |r.services| ensures !ServiceAt(r, t, uuid) {
        assert !Matches(r.services[t], uuid, false);
      }
      var free := Locate(r, uuid, true);
      if GoesTo(r, uuid, s) {
        assert Matches(r.services[s], uuid, true);
      }
    }
  }

  /** The messages that change nothing, and their replies. */
  lemma HandleRefuses(r: Registry, q: Request)
    requires Inv(r) && WellShaped(r) && |q.words| == 7
    ensures var uuid, n := UuidOf(q.arg3, q.arg4), q.arg6 % 256;
            && (q.arg5 & 3 == 0 || q.arg5 & 3 == 1 ==> Handle(r, q) == (r, NotSupported))
            && (q.arg5 & 3 == 2 && Unknown(r, uuid) && (forall t :: 0 <= t < 16 ==> r.services[t].inUse) ==>
                  Handle(r, q) == (r, NoMem))
            && (&& q.arg5 & 3 == 2 && (n == 0 || n > 7)
                && (!Unknown(r, uuid) || exists t :: 0 <= t < 16 && !r.services[t].inUse) ==>
                  Handle(r, q) == (r, InvalidParameter))
            && (q.arg5 & 3 == 3 && (Unknown(r, uuid) || n == 0 || n > 7) ==> Handle(r, q) == (r, InvalidParameter))
  {
    hide ApplyAll, UuidOf, SamePrefix, Unknown, Inv;
    var uuid := UuidOf(q.arg3, q.arg4);
    LocateMeans(r, uuid, 0);
    if t :| 0 <= t < 16 && !r.services[t].inUse {
      FreeSlotIsFound(r, uuid, t);
    }
  }

  lemma FreeSlotIsFound(r: Registry, uuid: seq<nat>, t: nat)
    requires WellShaped(r) && |uuid| == 16 && t < MAX_SERVICES && !r.services[t].inUse
    ensures SlotFor(r, uuid) >= 0
  {
    assert Matches(r.services[t], uuid, true);
  }

  /** The longest part of the request that is registrable is carried out. */
  lemma RegistrablePrefix(r: Registry, s: nat, source: nat, ms: seq<Mapping>) returns (k: nat)
    requires Inv(r) && s < |r.services| && forall i :: 0 <= i < |ms| ==> ms[i].id <= MAX_ID
    ensures k <= |ms| && Registrable(ms[..k], r.services[s].info, r.mask)
    ensures k < |ms| ==> !Registrable(ms[..k + 1], r.services[s].info, r.mask)
    ensures var a, part := ApplyAll(false, source, ms, r.services[s].info, r.mask),
                           ApplyAll(false, source, ms[..k], r.services[s].info, r.mask);
            part.status == Success && a.info == part.info && a.mask == part.mask && (a.status == Success <==> k == |ms|)
  {
    hide Inv, ApplyAll, ApplyOne, Registrable;
    var info := r.services[s].info;
    k := AcceptedCount(false, source, ms, info, r.mask);
    RefusedRequestKeepsItsPrefix(false, source, ms, info, r.mask);
    RegisterSucceedsExactly(r, s, source, ms[..k]);
    if k < |ms| {
      OneMoreIsRefused(false, source, ms, info, r.mask);
      RegisterSucceedsExactly(r, s, source, ms[..k + 1]);
    }
  }

  lemma {:induction false} OneMoreIsRefused(
      unregister: bool, source: nat, ms: seq<Mapping>, info: seq<Info>, mask: set<nat>)
    requires AcceptedCount(unregister, source, ms, info, mask) < |ms|
    ensures var k := AcceptedCount(unregister, source, ms, info, mask);
            ApplyAll(unregister, source, ms[..k + 1], info, mask).status != Success
    decreases |ms|
  {
    hide ApplyOne;
    var r, k := ApplyOne(unregister, source, ms[0], info, mask), AcceptedCount(unregister, source, ms, info, mask);
    if r.status == Success {
      OneMoreIsRefused(unregister, source, ms[1..], r.info, r.mask);
      assert ms[..k + 1][1..] == ms[1..][..k];
    }
  }

  /** A registration of one to seven mappings, sent to the slot it goes to: it succeeds exactly if they are
      registrable there, and in any case the longest registrable part of it, `ms[..k]`, is carried out. Each of
      these mappings is then in a place that was unused, with the sender as its source, everything else is as
      before, and exactly their IDs are taken as well. The slot becomes the service's on success only. */
  lemma RegisterMessageMeans(r: Registry, q: Request, s: nat) returns (k: nat, ps: seq<nat>)
    requires Inv(r) && WellShaped(r) && Permitted(q) && q.arg5 & 3 == 2 && 1 <= q.arg6 % 256 <= 7
    requires GoesTo(r, UuidOf(q.arg3, q.arg4), s)
    ensures |Mappings(q)| == q.arg6 % 256 && k <= |Mappings(q)|
    ensures Registrable(Mappings(q)[..k], r.services[s].info, r.mask)
    ensures k < |Mappings(q)| ==> !Registrable(Mappings(q)[..k + 1], r.services[s].info, r.mask)
    ensures var (r', status) := Handle(r, q);
            && |r'.services| == 16 && status == (if k == |Mappings(q)| then Success else InvalidParameter)
            && (forall t :: 0 <= t < 16 && t != s ==> r'.services[t] == r.services[t])
            && r'.mask == r.mask + IdsOf(Mappings(q)[..k])
            && Entered(q.source, Mappings(q)[..k], ps, r.services[s].info, r'.services[s].info)
            && r'.services[s].inUse == (r.services[s].inUse || status == Success)
            && r'.services[s].uuid ==
                 if !r.services[s].inUse && status == Success then UuidOf(q.arg3, q.arg4) else r.services[s].uuid
  {
    hide ApplyAll, UuidOf, Mappings, Inv, Registrable, Entered;
    var uuid, ms, info := UuidOf(q.arg3, q.arg4), Mappings(q), r.services[s].info;
    CountMeans(q);
    LocateMeans(r, uuid, s);
    k := RegistrablePrefix(r, s, q.source, ms);
    UpdateNeverRunsOut(r, s, false, q.source, ms);
    UpdateKeepsUuids(r, false, q, s);
    SlotIsDistinct(r, s);
    ps := RegisterEnters(q.source, ms[..k], info, r.mask);
    ApplyAllStatus(false, q.source, ms, info, r.mask);
  }

  lemma {:induction false} ApplyAllStatus(
      unregister: bool, source: nat, ms: seq<Mapping>, info: seq<Info>, mask: set<nat>)
    ensures ApplyAll(unregister, source, ms, info, mask).status != NotSupported
    decreases |ms|
  {
    if ms != [] {
      var r := ApplyOne(unregister, source, ms[0], info, mask);
      ApplyAllStatus(unregister, source, ms[1..], r.info, r.mask);
    }
  }

  lemma CountMeans(q: Request)
    requires |q.words| == 7 && 1 <= q.arg6 % 256 <= 7
    ensures |Mappings(q)| == q.arg6 % 256
  {
  }

  lemma UnregistrablePrefix(r: Registry, s: nat, source: nat, ms: seq<Mapping>) returns (k: nat)
    requires Inv(r) && s < |r.services| && forall i :: 0 <= i < |ms| ==> ms[i].id <= MAX_ID
    ensures k <= |ms| && Unregistrable(source, ms[..k], r.services[s].info)
    ensures k < |ms| ==> !Unregistrable(source, ms[..k + 1], r.services[s].info)
    ensures var a := ApplyAll(true, source, ms, r.services[s].info, r.mask);
            && Erased(ms[..k], r.services[s].info, a.info) && a.mask == r.mask - IdsOf(ms[..k])
            && (a.status == Success <==> k == |ms|)
  {
    hide Inv, ApplyAll, ApplyOne, Unregistrable, Erased;
    var info := r.services[s].info;
    k := AcceptedCount(true, source, ms, info, r.mask);
    RefusedRequestKeepsItsPrefix(true, source, ms, info, r.mask);
    UnregisterSucceedsExactly(r, s, source, ms[..k]);
    if k < |ms| {
      OneMoreIsRefused(true, source, ms, info, r.mask);
      UnregisterSucceedsExactly(r, s, source, ms[..k + 1]);
    }
  }

  /** An unregistration of one to seven mappings from a known service: it succeeds exactly if the slot holds them
      all for the sender, and in any case the longest such part of it, `ms[..k]`, is carried out: exactly those
      mappings are erased and their IDs freed. */
  lemma UnregisterMessageMeans(r: Registry, q: Request, s: nat) returns (k: nat)
    requires Inv(r) && WellShaped(r) && Permitted(q) && q.arg5 & 3 == 3 && 1 <= q.arg6 % 256 <= 7
    requires ServiceAt(r, s, UuidOf(q.arg3, q.arg4))
    ensures |Mappings(q)| == q.arg6 % 256 && k <= |Mappings(q)|
    ensures Unregistrable(q.source, Mappings(q)[..k], r.services[s].info)
    ensures k < |Mappings(q)| ==> !Unregistrable(q.source, Mappings(q)[..k + 1], r.services[s].info)
    ensures var (r', status) := Handle(r, q);
            && |r'.services| == 16 && status == (if k == |Mappings(q)| then Success else InvalidParameter)
            && (forall t :: 0 <= t < 16 && t != s ==> r'.services[t] == r.services[t])
            && r'.mask == r.mask - IdsOf(Mappings(q)[..k])
            && Erased(Mappings(q)[..k], r.services[s].info, r'.services[s].info)
            && r'.services[s].inUse && r'.services[s].uuid == r.services[s].uuid
  {
    hide ApplyAll, UuidOf, Mappings, Inv, Unregistrable, Erased;
    var ms := Mappings(q);
    CountMeans(q);
    LocateMeans(r, UuidOf(q.arg3, q.arg4), s);
    k := UnregistrablePrefix(r, s, q.source, ms);
    UpdateNeverRunsOut(r, s, true, q.source, ms);
    ApplyAllStatus(true, q.source, ms, r.services[s].info, r.mask);
  }

  // ----- Signalling

  /** The mapping in use with this cookie, of the service with this UUID. */
  ghost predicate Bound(r: Registry, cookie: nat, uuid: seq<nat>, s: nat, i: nat)
    requires |uuid| == 16
  {
    ServiceAt(r, s, uuid) && i < |r.services[s].info| && InUseWith(r.services[s].info[i], cookie)
  }

  /** The signal is the source, flag and ID of that mapping, bit 0 of the flag set if it is per vCPU; and there
      is none at all if there is no such mapping. */
  ghost predicate Signals(r: Registry, cookie: nat, uuid: seq<nat>, flag: bv32, signal: Signal)
    requires |uuid| == 16
  {
    && (forall s: nat, i: nat :: Bound(r, cookie, uuid, s, i) ==>
          var e := r.services[s].info[i];
          signal == Signal(e.source, if e.perVcpu then flag | 1 else flag, e.id))
    && ((forall s: nat, i: nat :: !Bound(r, cookie, uuid, s, i)) ==> signal == NoSignal)
  }

  /** Signalling any cookie but zero. */
  lemma SignalMeans(r: Registry, cookie: nat, uuid: seq<nat>, flag: bv32)
    requires Inv(r) && WellShaped(r) && |uuid| == 16 && cookie != 0
    ensures Signals(r, cookie, uuid, flag, IdSet(r, cookie, uuid, flag))
  {
    IdSetSignalsTheRegistration(r, cookie, uuid, flag);
    var known := Locate(r, uuid, false);
    forall s: nat, i: nat | Bound(r, cookie, uuid, s, i)
      ensures known == s && CookieFrom(r.services[s].info, cookie, 0) == i
    {
      LocateMeans(r, uuid, s);
      SlotIsDistinct(r, s);
      CookieIsFound(r.services[s].info, i);
    }
    if known >= 0 {
      assert ServiceAt(r, known, uuid);
      var i := CookieFrom(r.services[known].info, cookie, 0);
      assert i >= 0 ==> Bound(r, cookie, uuid, known, i);
    }
  }

  /** From registers to signal: after a successful registration of these mappings, each non-zero cookie signals
      the sender with that mapping's ID, and bit 0 of the flag set if it was sent as per vCPU. */
  lemma SentMappingIsSignalled(r: Registry, q: Request, ms: seq<Mapping>, k: nat, flag: bv32)
    requires Inv(r) && Permitted(q) && Carrying(q, ms) && 1 <= |ms| <= 7 && q.arg5 & 3 == 2
    requires Handle(r, q).1 == Success && k < |ms| && ms[k].cookie != 0
    ensures WellShaped(Handle(r, q).0)
    ensures IdSet(Handle(r, q).0, ms[k].cookie, UuidOf(q.arg3, q.arg4), flag) ==
              Signal(q.source, if ms[k].perVcpu then flag | 1 else flag, ms[k].id)
  {
    hide Mappings, Register, IdSet, UuidOf, Inv, Carrying;
    InvIsWellShaped(r);
    MappingsAreRead(q, ms);
    RegisteredCookieSignalsItsSource(r, q, k, flag);
  }
}
