/** Slots that no service has claimed: what a refused first registration leaves in one, and who gets it. */
module NotificationSlots {
  import opened Notification
  import opened NotificationTheorems

  // ----- First registrations

  function UuidIn(q: Request): (u: seq<nat>)
    ensures |u| == 16
  {
    UuidOf(q.arg3, q.arg4)
  }

  /** A registration for a service that has no slot yet, with an empty slot to be had. */
  predicate AsksForSlot(r: Registry, q: Request)
    requires WellShaped(r)
  {
    Permitted(q) && Registers(q) && Locate(r, UuidIn(q), false) < 0 <= SlotFor(r, UuidIn(q))
  }

  /** It succeeds, and the service gets the slot. */
  predicate Claims(r: Registry, q: Request)
    requires WellShaped(r)
  {
    AsksForSlot(r, q) && Register(r, q).1 == Success
  }

  /** It is refused, but not at its first mapping: the cookie of that one is not in use in the slot and
      its ID is not taken. */
  ghost predicate Strands(r: Registry, q: Request)
    requires WellShaped(r)
  {
    && AsksForSlot(r, q) && Mappings(q) != [] && Register(r, q).1 != Success
    && !Refusable(false, q.source, Mappings(q)[0], r.services[SlotFor(r, UuidIn(q))].info, r.mask)
  }

  ghost predicate IsFirstEmpty(r: Registry, s: nat) {
    s < |r.services| && !r.services[s].inUse && forall t :: 0 <= t < s ==> r.services[t].inUse
  }

  ghost predicate HoldsMapping(info: seq<Info>) {
    exists i :: 0 <= i < |info| && info[i].inUse
  }

  /** Of the unclaimed slots, only the first can hold one. */
  ghost predicate OnlyFirstHolds(r: Registry) {
    forall s :: 0 <= s < |r.services| && !r.services[s].inUse && HoldsMapping(r.services[s].info) ==> IsFirstEmpty(r, s)
  }

  lemma AskedSlotIsFirstEmpty(r: Registry, q: Request)
    requires WellShaped(r) && AsksForSlot(r, q)
    ensures IsFirstEmpty(r, SlotFor(r, UuidIn(q)))
  {
    hide UuidIn;
  }

  // ----- What one message does to unclaimed slots

  /** Every slot keeps its claim, and unclaimed ones keep their contents. */
  ghost predicate KeepsSlots(r: Registry, r': Registry) {
    && |r'.services| == |r.services|
    && forall t :: 0 <= t < |r.services| ==>
         && r'.services[t].inUse == r.services[t].inUse
         && (!r.services[t].inUse ==> r'.services[t] == r.services[t])
  }

  lemma UpdateOfClaimedKeepsSlots(r: Registry, unregister: bool, q: Request, s: nat)
    requires s < |r.services| && r.services[s].inUse && |q.words| == MAPPING_MAX
    ensures KeepsSlots(r, Update(r, unregister, q, s).0)
  {
    hide ApplyAll, Mappings;
  }

  /** Only a first registration touches an unclaimed slot. */
  lemma OtherMessagesKeepSlots(r: Registry, q: Request)
    requires WellShaped(r) && Permitted(q) && !AsksForSlot(r, q)
    ensures KeepsSlots(r, Handle(r, q).0)
  {
    hide Update, UuidIn, UuidOf, KeepsSlots;
    assert UuidIn(q) == UuidOf(q.arg3, q.arg4) by {
      SameUuid(q);
    }
    NothingKeepsSlots(r);
    var s := Locate(r, UuidIn(q), false);
    if s >= 0 {
      UpdateOfClaimedKeepsSlots(r, false, q, s);
      UpdateOfClaimedKeepsSlots(r, true, q, s);
    }
  }

  lemma SameUuid(q: Request)
    ensures UuidIn(q) == UuidOf(q.arg3, q.arg4)
  {
  }

  lemma NothingKeepsSlots(r: Registry)
    ensures KeepsSlots(r, r)
  {
  }

  /** A first registration that succeeds claims the first empty slot; one that is refused leaves its
      prefix there. Either way what was in the slot stays, and nothing else is touched. */
  lemma FirstRegistrationOutcome(r: Registry, q: Request)
    requires WellShaped(r) && AsksForSlot(r, q)
    ensures var s, r' := SlotFor(r, UuidIn(q)), Handle(r, q).0;
            && |r'.services| == MAX_SERVICES && r'.services[s].inUse == Claims(r, q)
            && (forall t :: 0 <= t < MAX_SERVICES && t != s ==> r'.services[t] == r.services[t])
            && (Mappings(q) != [] ==>
                  r'.services[s].info == ApplyAll(false, q.source, Mappings(q), r.services[s].info, r.mask).info)
            && (Mappings(q) == [] ==> r'.services[s].info == r.services[s].info && !Claims(r, q))
  {
    hide ApplyAll, Mappings, UuidOf, Locate;
    var s := SlotFor(r, UuidIn(q));
    assert !r.services[s].inUse by {
      AskedSlotIsFirstEmpty(r, q);
    }
  }

  /** Mappings in use stay in use and unchanged. */
  ghost predicate KeepsInUse(info: seq<Info>, info': seq<Info>) {
    |info'| == |info| && forall i :: 0 <= i < |info| && info[i].inUse ==> info'[i] == info[i]
  }

  ghost predicate EntersOne(info: seq<Info>, info': seq<Info>) {
    |info'| == |info| && exists i :: 0 <= i < |info| && !info[i].inUse && info'[i].inUse
  }

  /** What the slot held stays in it; a mapping is entered exactly if the message strands one or claims
      the slot, and otherwise the slot is as before. */
  lemma SlotAfterFirstRegistration(r: Registry, q: Request)
    requires Inv(r) && WellShaped(r) && AsksForSlot(r, q)
    ensures var s, r' := SlotFor(r, UuidIn(q)), Handle(r, q).0;
            && |r'.services| == MAX_SERVICES && KeepsInUse(r.services[s].info, r'.services[s].info)
            && (Strands(r, q) || Claims(r, q) ==> EntersOne(r.services[s].info, r'.services[s].info))
            && (!Strands(r, q) && !Claims(r, q) ==> r'.services[s].info == r.services[s].info)
  {
    hide Inv, Handle, Mappings, Refusable, SlotFor, EntersOne;
    FirstRegistrationOutcome(r, q);
    var s, ms := SlotFor(r, UuidIn(q)), Mappings(q);
    var info := r.services[s].info;
    if ms != [] {
      RefusableMeansRefused(r, s, false, q.source, ms[0]);
      PrefixIsEntered(q.source, ms, info, r.mask);
      RegisterSucceedsWithApply(r, q);
    }
  }

  lemma RegisterSucceedsWithApply(r: Registry, q: Request)
    requires WellShaped(r) && AsksForSlot(r, q) && Mappings(q) != []
    ensures Register(r, q).1 ==
              ApplyAll(false, q.source, Mappings(q), r.services[SlotFor(r, UuidIn(q))].info, r.mask).status
  {
    hide ApplyAll, Mappings, UuidOf, Locate;
  }

  /** Entering mappings keeps those in use, and enters one exactly if the first is acceptable. */
  lemma PrefixIsEntered(source: nat, ms: seq<Mapping>, info: seq<Info>, mask: set<nat>)
    requires ms != []
    ensures var a := ApplyAll(false, source, ms, info, mask);
            var first := ApplyOne(false, source, ms[0], info, mask);
            && KeepsInUse(info, a.info) && (a.status == Success ==> first.status == Success)
            && (if first.status == Success then EntersOne(info, a.info) else a.info == info)
  {
    hide ApplyAll;
    var a, first := ApplyAll(false, source, ms, info, mask), ApplyOne(false, source, ms[0], info, mask);
    ApplyAllUnfolds(source, ms, info, mask);
    ApplyAllKeepsLength(false, source, ms, info, mask);
    forall i | 0 <= i < |info| && info[i].inUse ensures a.info[i] == info[i] {
      ApplyAllKeepsOthers(false, source, ms, info, mask, i);
    }
    if first.status == Success {
      var e := UnusedFrom(info, 0);
      assert first.info == info[e := EntryFor(source, ms[0])];
      ApplyAllKeepsOthers(false, source, ms[1..], first.info, first.mask, e);
      assert !info[e].inUse && a.info[e].inUse;
    }
  }

  lemma ApplyAllUnfolds(source: nat, ms: seq<Mapping>, info: seq<Info>, mask: set<nat>)
    requires ms != []
    ensures var first := ApplyOne(false, source, ms[0], info, mask);
            && (first.status == Success ==>
                  ApplyAll(false, source, ms, info, mask) == ApplyAll(false, source, ms[1..], first.info, first.mask))
            && (first.status != Success ==>
                  ApplyAll(false, source, ms, info, mask) == Applied(first.status, info, mask))
  {
    RefusalChangesNothing(false, source, ms[0], info, mask);
  }

  lemma {:induction false} ApplyAllKeepsLength(
      unregister: bool, source: nat, ms: seq<Mapping>, info: seq<Info>, mask: set<nat>)
    ensures |ApplyAll(unregister, source, ms, info, mask).info| == |info|
    decreases |ms|
  {
    if ms != [] {
      var a := ApplyOne(unregister, source, ms[0], info, mask);
      if a.status == Success {
        ApplyAllKeepsLength(unregister, source, ms[1..], a.info, a.mask);
      }
    }
  }

  // ----- Runs

  /** No message of the run is a successful first registration. */
  ghost predicate NeverClaims(r: Registry, qs: seq<Request>)
    requires Inv(r)
    decreases |qs|
  {
    if qs == [] then true
    else if !Permitted(qs[0]) then NeverClaims(r, qs[1..])
    else
      HandleKeepsInv(r, qs[0]);
      !Claims(r, qs[0]) && NeverClaims(Handle(r, qs[0]).0, qs[1..])
  }

  // ----- Under which UUID a mapping was sent

  /** For every slot and place, the upper UUID half of the message that entered the mapping there. */
  type Labels = (nat, nat) -> nat

  ghost predicate Entering(r: Registry, r': Registry, s: nat, i: nat) {
    && s < |r.services| && s < |r'.services| && i < |r.services[s].info| && i < |r'.services[s].info|
    && !r.services[s].info[i].inUse && r'.services[s].info[i].inUse
  }

  /** The labels after a message sent under `hi`. */
  ghost function Relabel(o: Labels, r: Registry, r': Registry, hi: nat): Labels {
    (s, i) => if Entering(r, r', s, i) then hi else o(s, i)
  }

  ghost function LabelsAfter(r: Registry, o: Labels, qs: seq<Request>): Labels
    requires Inv(r)
    decreases |qs|
  {
    if qs == [] then o
    else if !Permitted(qs[0]) then LabelsAfter(r, o, qs[1..])
    else
      HandleKeepsInv(r, qs[0]);
      var r' := Handle(r, qs[0]).0;
      LabelsAfter(r', Relabel(o, r, r', qs[0].arg4), qs[1..])
  }

  /** The slot holds a mapping that was sent under another UUID than `hi`. */
  ghost predicate HoldsForeign(r: Registry, o: Labels, s: nat, hi: nat) {
    s < |r.services| && exists i: nat :: i < |r.services[s].info| && r.services[s].info[i].inUse && o(s, i) != hi
  }

  /** Some unclaimed slot does. */
  ghost predicate HasForeign(r: Registry, o: Labels, hi: nat) {
    exists s: nat :: s < |r.services| && !r.services[s].inUse && HoldsForeign(r, o, s, hi)
  }

  /** Some message of the run strands a mapping under another UUID than `hi`, and no later one is a
      successful first registration. */
  ghost predicate LeavesForeign(r: Registry, qs: seq<Request>, hi: nat)
    requires Inv(r)
    decreases |qs|
  {
    if qs == [] then false
    else if !Permitted(qs[0]) then LeavesForeign(r, qs[1..], hi)
    else
      HandleKeepsInv(r, qs[0]);
      var r' := Handle(r, qs[0]).0;
      LeavesForeign(r', qs[1..], hi) || (Strands(r, qs[0]) && qs[0].arg4 != hi && NeverClaims(r', qs[1..]))
  }

  lemma ForeignHolds(r: Registry, o: Labels, s: nat, hi: nat)
    requires HoldsForeign(r, o, s, hi)
    ensures s < |r.services| && HoldsMapping(r.services[s].info)
  {
  }

  lemma ForeignIsInFirst(r: Registry, o: Labels, s: nat, hi: nat)
    requires OnlyFirstHolds(r) && IsFirstEmpty(r, s)
    ensures HasForeign(r, o, hi) <==> HoldsForeign(r, o, s, hi)
  {
    hide HoldsMapping, HoldsForeign;
    if HasForeign(r, o, hi) {
      var t: nat :| t < |r.services| && !r.services[t].inUse && HoldsForeign(r, o, t, hi);
      ForeignHolds(r, o, t, hi);
      FirstEmptyIsUnique(r, s, t);
    }
  }

  /** Changing the first empty slot alone. */
  lemma FirstEmptyChanges(r: Registry, r': Registry, o: Labels, s: nat, hi: nat)
    requires OnlyFirstHolds(r) && IsFirstEmpty(r, s) && |r'.services| == |r.services|
    requires forall t :: 0 <= t < |r.services| && t != s ==> r'.services[t] == r.services[t]
    ensures OnlyFirstHolds(r')
    ensures HasForeign(r', o, hi) <==> !r'.services[s].inUse && HoldsForeign(r', o, s, hi)
  {
    hide HoldsMapping, HoldsForeign;
    forall t | 0 <= t < |r'.services| && !r'.services[t].inUse && HoldsMapping(r'.services[t].info)
      ensures t == s && IsFirstEmpty(r', t)
    {
    }
    forall t: nat | t < |r'.services| && !r'.services[t].inUse && HoldsForeign(r', o, t, hi) ensures t == s {
      ForeignHolds(r', o, t, hi);
    }
  }

  /** What the slot holds under other UUIDs after mappings were entered under `mine`, or none were. */
  lemma ForeignAfter(r: Registry, r': Registry, o: Labels, s: nat, mine: nat, hi: nat)
    requires s < |r.services| && s < |r'.services|
    requires KeepsInUse(r.services[s].info, r'.services[s].info)
    ensures EntersOne(r.services[s].info, r'.services[s].info) ==>
              (HoldsForeign(r', Relabel(o, r, r', mine), s, hi) <==> HoldsForeign(r, o, s, hi) || mine != hi)
    ensures r'.services[s].info == r.services[s].info || mine == hi ==>
              (HoldsForeign(r', Relabel(o, r, r', mine), s, hi) <==> HoldsForeign(r, o, s, hi))
  {
    var o', info, info' := Relabel(o, r, r', mine), r.services[s].info, r'.services[s].info;
    forall i: nat | i < |info| && info[i].inUse ensures info'[i].inUse && o'(s, i) == o(s, i) {
    }
    forall i: nat | i < |info| && !info[i].inUse && info'[i].inUse ensures o'(s, i) == mine {
      assert Entering(r, r', s, i);
    }
  }

  lemma SlotsKeptAreAlike(r: Registry, r': Registry, o: Labels, mine: nat, hi: nat)
    requires KeepsSlots(r, r') && OnlyFirstHolds(r)
    ensures OnlyFirstHolds(r') && (HasForeign(r', Relabel(o, r, r', mine), hi) <==> HasForeign(r, o, hi))
  {
    hide HoldsMapping, HoldsForeign, Relabel;
    forall t: nat | t < |r.services| && !r.services[t].inUse
      ensures HoldsForeign(r', Relabel(o, r, r', mine), t, hi) <==> HoldsForeign(r, o, t, hi)
    {
      ForeignAfter(r, r', o, t, mine, hi);
    }
  }

  /** One message: an unclaimed slot holds a foreign mapping afterwards exactly if this message stranded
      one, or it held one already and this message is not a claim. */
  lemma MessageStrands(r: Registry, o: Labels, q: Request, hi: nat)
    requires Inv(r) && WellShaped(r) && Permitted(q) && OnlyFirstHolds(r)
    ensures OnlyFirstHolds(Handle(r, q).0)
    ensures HasForeign(Handle(r, q).0, Relabel(o, r, Handle(r, q).0, q.arg4), hi) <==>
              (Strands(r, q) && q.arg4 != hi) || (HasForeign(r, o, hi) && !Claims(r, q))
  {
    hide Inv, Handle, HoldsForeign, Relabel, HasForeign, EntersOne, KeepsInUse;
    hide Claims, Strands, AsksForSlot, IsFirstEmpty, OnlyFirstHolds, KeepsSlots;
    AskingFirst(r, q);
    var r' := Handle(r, q).0;
    if AsksForSlot(r, q) {
      var s := SlotFor(r, UuidIn(q));
      AskedSlotIsFirstEmpty(r, q);
      FirstRegistrationOutcome(r, q);
      SlotAfterFirstRegistration(r, q);
      ForeignIsInFirst(r, o, s, hi);
      ForeignAfter(r, r', o, s, q.arg4, hi);
      FirstEmptyChanges(r, r', Relabel(o, r, r', q.arg4), s, hi);
    } else {
      OtherMessagesKeepSlots(r, q);
      SlotsKeptAreAlike(r, r', o, q.arg4, hi);
    }
  }

  lemma AskingFirst(r: Registry, q: Request)
    requires WellShaped(r)
    ensures Strands(r, q) ==> AsksForSlot(r, q) && !Claims(r, q)
    ensures Claims(r, q) ==> AsksForSlot(r, q)
    ensures AsksForSlot(r, q) ==> 0 <= SlotFor(r, UuidIn(q))
  {
  }

  lemma {:induction false} ForeignFrom(r: Registry, o: Labels, qs: seq<Request>, hi: nat)
    requires Inv(r) && OnlyFirstHolds(r)
    ensures Inv(After(r, qs)) && OnlyFirstHolds(After(r, qs))
    ensures HasForeign(After(r, qs), LabelsAfter(r, o, qs), hi) <==>
              LeavesForeign(r, qs, hi) || (HasForeign(r, o, hi) && NeverClaims(r, qs))
    decreases |qs|
  {
    hide Inv, Handle, OnlyFirstHolds, HasForeign, Claims, Strands, Relabel;
    if qs != [] {
      if !Permitted(qs[0]) {
        ForeignFrom(r, o, qs[1..], hi);
      } else {
        InvIsWellShaped(r);
        HandleKeepsInv(r, qs[0]);
        MessageStrands(r, o, qs[0], hi);
        var r' := Handle(r, qs[0]).0;
        ForeignFrom(r', Relabel(o, r, r', qs[0].arg4), qs[1..], hi);
      }
    }
  }

  lemma NothingStrandedAtFirst(o: Labels, hi: nat)
    ensures OnlyFirstHolds(Initial()) && !HasForeign(Initial(), o, hi)
  {
  }

  // ----- Who gets a stranded mapping

  /** A service that claims a slot finds there a mapping sent under another UUID if and only if an unclaimed
      slot held one. */
  lemma ClaimedSlotIsForeignExactly(r: Registry, o: Labels, q: Request)
    requires Inv(r) && WellShaped(r) && OnlyFirstHolds(r) && Claims(r, q)
    ensures var s, r' := SlotFor(r, UuidIn(q)), Handle(r, q).0;
            && 0 <= s < |r'.services| && r'.services[s].inUse
            && (HoldsForeign(r', Relabel(o, r, r', q.arg4), s, q.arg4) <==> HasForeign(r, o, q.arg4))
  {
    hide Inv, Handle, HoldsForeign, Relabel, HasForeign, EntersOne, KeepsInUse, IsFirstEmpty, OnlyFirstHolds;
    hide Strands, Register;
    AskingFirst(r, q);
    var s := SlotFor(r, UuidIn(q));
    AskedSlotIsFirstEmpty(r, q);
    FirstRegistrationOutcome(r, q);
    SlotAfterFirstRegistration(r, q);
    ForeignIsInFirst(r, o, s, q.arg4);
    ForeignAfter(r, Handle(r, q).0, o, s, q.arg4, q.arg4);
  }

  /** Over every run from start-up: the next service to claim a slot finds only mappings sent under its own
      UUID there if and only if no message since the last claim stranded one under another. */
  lemma NextServiceIsCleanExactly(qs: seq<Request>, q: Request, o: Labels)
    ensures Inv(Initial()) && WellShaped(After(Initial(), qs))
    ensures var r := After(Initial(), qs);
            Claims(r, q) ==>
              var s, r' := SlotFor(r, UuidIn(q)), Handle(r, q).0;
              && 0 <= s < |r'.services| && r'.services[s].inUse
              && (HoldsForeign(r', Relabel(LabelsAfter(Initial(), o, qs), r, r', q.arg4), s, q.arg4) <==>
                    LeavesForeign(Initial(), qs, q.arg4))
  {
    hide Handle, Claims, After, LabelsAfter, LeavesForeign, Relabel, HoldsForeign, HasForeign, OnlyFirstHolds;
    InitialHoldsInv();
    NothingStrandedAtFirst(o, q.arg4);
    ForeignFrom(Initial(), o, qs, q.arg4);
    hide Inv;
    var r := After(Initial(), qs);
    InvIsWellShaped(r);
    if Claims(r, q) {
      ClaimedSlotIsForeignExactly(r, LabelsAfter(Initial(), o, qs), q);
    }
  }

  // ----- A claimed slot takes in nothing foreign

  lemma {:induction false} UnregisterEntersNothing(
      source: nat, ms: seq<Mapping>, info: seq<Info>, mask: set<nat>, i: nat)
    requires i < |info| && !info[i].inUse
    ensures var a := ApplyAll(true, source, ms, info, mask);
            |a.info| == |info| && !a.info[i].inUse
    decreases |ms|
  {
    if ms != [] {
      var a := ApplyOne(true, source, ms[0], info, mask);
      if a.status == Success {
        UnregisterEntersNothing(source, ms[1..], a.info, a.mask, i);
      }
    }
  }

  /** A slot in use under the upper UUID half `hi`. */
  predicate ClaimedUnder(r: Registry, s: nat, hi: nat)
    requires WellShaped(r)
  {
    s < MAX_SERVICES && r.services[s].inUse && SamePrefix(UuidOf(0, hi), r.services[s].uuid)
  }

  lemma UpdateEnters(r: Registry, unregister: bool, q: Request, t: nat, s: nat, i: nat)
    requires t < |r.services| && |q.words| == MAPPING_MAX
    requires s < |r.services| && i < |r.services[s].info| && !r.services[s].info[i].inUse
    ensures var r' := Update(r, unregister, q, t).0;
            && |r'.services| == |r.services| && |r'.services[s].info| == |r.services[s].info|
            && (r'.services[s].info[i].inUse ==> !unregister && s == t)
  {
    hide ApplyAll, Mappings;
    ApplyAllKeepsLength(unregister, q.source, Mappings(q), r.services[t].info, r.mask);
    if unregister && s == t {
      UnregisterEntersNothing(q.source, Mappings(q), r.services[s].info, r.mask, i);
    }
  }

  /** Only a message under the slot's own UUID enters a mapping there. */
  lemma EnteringNeedsTheUuid(r: Registry, q: Request, s: nat, hi: nat, i: nat)
    requires WellShaped(r) && |q.words| == MAPPING_MAX && ClaimedUnder(r, s, hi)
    requires hi < 0x1_0000_0000_0000_0000 && q.arg4 < 0x1_0000_0000_0000_0000
    ensures Entering(r, Handle(r, q).0, s, i) ==> q.arg4 == hi
  {
    hide Update, UuidOf;
    var r', uuid := Handle(r, q).0, UuidOf(q.arg3, q.arg4);
    if Entering(r, r', s, i) {
      var known, slot := Locate(r, uuid, false), SlotFor(r, uuid);
      if known >= 0 {
        UpdateEnters(r, true, q, known, s, i);
      }
      if slot >= 0 {
        UpdateEnters(r, false, q, slot, s, i);
        UpdateKeepsUuids(r, false, q, slot);
      }
      assert known == s;
      ServicesDifferOnlyInUpperHalf(0, hi, q.arg3, q.arg4);
    }
  }

  lemma HandleKeepsClaim(r: Registry, q: Request, s: nat, hi: nat)
    requires WellShaped(r) && Permitted(q) && ClaimedUnder(r, s, hi)
    ensures WellShaped(Handle(r, q).0) ==> ClaimedUnder(Handle(r, q).0, s, hi)
    ensures |Handle(r, q).0.services| == MAX_SERVICES
    ensures |Handle(r, q).0.services[s].info| == |r.services[s].info|
  {
    hide ApplyAll, Mappings, UuidOf, SamePrefix, Locate;
    var known, slot := Locate(r, UuidOf(q.arg3, q.arg4), false), SlotFor(r, UuidOf(q.arg3, q.arg4));
    if known >= 0 {
      ApplyAllKeepsLength(true, q.source, Mappings(q), r.services[known].info, r.mask);
    }
    if slot >= 0 {
      ApplyAllKeepsLength(false, q.source, Mappings(q), r.services[slot].info, r.mask);
    }
  }

  lemma MessageAddsNothingForeign(r: Registry, o: Labels, q: Request, s: nat, hi: nat)
    requires WellShaped(r) && Permitted(q) && ClaimedUnder(r, s, hi)
    requires hi < 0x1_0000_0000_0000_0000 && q.arg4 < 0x1_0000_0000_0000_0000
    ensures HoldsForeign(Handle(r, q).0, Relabel(o, r, Handle(r, q).0, q.arg4), s, hi) ==> HoldsForeign(r, o, s, hi)
  {
    hide Handle, ClaimedUnder;
    HandleKeepsClaim(r, q, s, hi);
    var r' := Handle(r, q).0;
    var o' := Relabel(o, r, r', q.arg4);
    if HoldsForeign(r', o', s, hi) {
      var i: nat :| i < |r'.services[s].info| && r'.services[s].info[i].inUse && o'(s, i) != hi;
      EnteringNeedsTheUuid(r, q, s, hi, i);
    }
  }

  /** Over every run: a claimed slot that holds only mappings sent under its own UUID goes on doing so. */
  lemma {:induction false} CleanSlotStaysClean(r: Registry, o: Labels, qs: seq<Request>, s: nat, hi: nat)
    requires Inv(r) && WellShaped(r) && ClaimedUnder(r, s, hi) && !HoldsForeign(r, o, s, hi)
    requires hi < 0x1_0000_0000_0000_0000
    requires forall k :: 0 <= k < |qs| ==> qs[k].arg4 < 0x1_0000_0000_0000_0000
    ensures WellShaped(After(r, qs)) && ClaimedUnder(After(r, qs), s, hi)
    ensures !HoldsForeign(After(r, qs), LabelsAfter(r, o, qs), s, hi)
    decreases |qs|
  {
    hide Inv, Handle, ClaimedUnder, HoldsForeign, Relabel;
    if qs != [] {
      if !Permitted(qs[0]) {
        CleanSlotStaysClean(r, o, qs[1..], s, hi);
      } else {
        HandleKeepsInv(r, qs[0]);
        var r' := Handle(r, qs[0]).0;
        InvIsWellShaped(r');
        HandleKeepsClaim(r, qs[0], s, hi);
        MessageAddsNothingForeign(r, o, qs[0], s, hi);
        CleanSlotStaysClean(r', Relabel(o, r, r', qs[0].arg4), qs[1..], s, hi);
      }
    }
  }

  // ----- What becomes of a stranded mapping

  lemma FirstEmptyIsUnique(r: Registry, s: nat, t: nat)
    requires IsFirstEmpty(r, s) && IsFirstEmpty(r, t)
    ensures s == t
  {
  }

  /** A mapping in the first empty slot stays there until a service claims the slot, whatever is sent. */
  lemma {:induction false} StrandedStays(r: Registry, qs: seq<Request>, s: nat, i: nat, e: Info)
    requires Inv(r) && IsFirstEmpty(r, s) && Registered(r, s, i, e) && NeverClaims(r, qs)
    ensures IsFirstEmpty(After(r, qs), s) && Registered(After(r, qs), s, i, e)
    decreases |qs|
  {
    hide Inv, Handle, Claims, IsFirstEmpty, Registered;
    if qs != [] {
      if !Permitted(qs[0]) {
        StrandedStays(r, qs[1..], s, i, e);
      } else {
        InvIsWellShaped(r);
        HandleKeepsInv(r, qs[0]);
        StrandedStaysOnce(r, qs[0], s, i, e);
        StrandedStays(Handle(r, qs[0]).0, qs[1..], s, i, e);
      }
    }
  }

  lemma StrandedStaysOnce(r: Registry, q: Request, s: nat, i: nat, e: Info)
    requires Inv(r) && WellShaped(r) && Permitted(q)
    requires IsFirstEmpty(r, s) && Registered(r, s, i, e)
    ensures Registered(Handle(r, q).0, s, i, e)
    ensures !Claims(r, q) ==> IsFirstEmpty(Handle(r, q).0, s)
    ensures Claims(r, q) ==> SlotFor(r, UuidIn(q)) == s
  {
    hide Inv, Handle, Claims, AsksForSlot, Mappings;
    AskingFirst(r, q);
    if AsksForSlot(r, q) {
      AskedSlotIsFirstEmpty(r, q);
      FirstEmptyIsUnique(r, s, SlotFor(r, UuidIn(q)));
      FirstRegistrationOutcome(r, q);
      SlotAfterFirstRegistration(r, q);
    } else {
      OtherMessagesKeepSlots(r, q);
    }
  }

  /** Where a stranding message leaves its first mapping. */
  lemma StrandedPlace(r: Registry, q: Request) returns (s: nat, i: nat)
    requires Inv(r) && WellShaped(r) && Strands(r, q)
    ensures Inv(Handle(r, q).0) && IsFirstEmpty(Handle(r, q).0, s)
    ensures Registered(Handle(r, q).0, s, i, EntryFor(q.source, Mappings(q)[0])) && Mappings(q)[0].id !in r.mask
  {
    hide Inv, Handle, Mappings, ApplyAll;
    AskingFirst(r, q);
    HandleKeepsInv(r, q);
    s := SlotFor(r, UuidIn(q));
    AskedSlotIsFirstEmpty(r, q);
    FirstRegistrationOutcome(r, q);
    var info, ms := r.services[s].info, Mappings(q);
    RefusableMeansRefused(r, s, false, q.source, ms[0]);
    var one := ApplyOne(false, q.source, ms[0], info, r.mask);
    ApplyAllUnfolds(q.source, ms, info, r.mask);
    i := UnusedFrom(info, 0);
    assert one.info == info[i := EntryFor(q.source, ms[0])];
    ApplyAllKeepsOthers(false, q.source, ms[1..], one.info, one.mask, i);
  }

  /** A refused first registration whose first mapping was acceptable strands that mapping: whoever sends
      what, its ID stays taken until a service claims the slot. */
  lemma RefusedFirstRegistrationStrandsItsIds(r: Registry, q: Request, qs: seq<Request>)
    requires Inv(r) && WellShaped(r) && Strands(r, q)
    ensures Inv(Handle(r, q).0)
    ensures NeverClaims(Handle(r, q).0, qs) ==>
              Mappings(q)[0].id !in r.mask && Mappings(q)[0].id in After(Handle(r, q).0, qs).mask
  {
    hide Handle, Mappings, NeverClaims, After, Refusable, Register;
    var s, i := StrandedPlace(r, q);
    var r', e := Handle(r, q).0, EntryFor(q.source, Mappings(q)[0]);
    if NeverClaims(r', qs) {
      StrandedStays(r', qs, s, i, e);
      AfterKeepsInv(r', qs);
      assert Carries(After(r', qs), s, i, e.id);
    }
  }

  /** The service that claims the slot inherits the mapping: signalling its cookie under the new service's
      UUID signals the partition that was refused, whatever came in between. */
  lemma InheritedMappingSignalsItsSender(r: Registry, q: Request, qs: seq<Request>, q': Request, flag: bv32)
    requires Inv(r) && WellShaped(r) && Strands(r, q) && Mappings(q)[0].cookie != 0
    ensures Inv(Handle(r, q).0) && WellShaped(After(Handle(r, q).0, qs))
    ensures var r' := After(Handle(r, q).0, qs);
            NeverClaims(Handle(r, q).0, qs) && Claims(r', q') ==>
              && WellShaped(Handle(r', q').0)
              && IdSet(Handle(r', q').0, Mappings(q)[0].cookie, UuidIn(q'), flag)
                 == Signal(q.source, if Mappings(q)[0].perVcpu then flag | 1 else flag, Mappings(q)[0].id)
  {
    hide Handle, Mappings, NeverClaims, After, Inv, IdSet, Refusable, Register;
    var s, i := StrandedPlace(r, q);
    var e := EntryFor(q.source, Mappings(q)[0]);
    AfterKeepsInv(Handle(r, q).0, qs);
    var r' := After(Handle(r, q).0, qs);
    InvIsWellShaped(r');
    if NeverClaims(Handle(r, q).0, qs) && Claims(r', q') {
      StrandedStays(Handle(r, q).0, qs, s, i, e);
      StrandedStaysOnce(r', q', s, i, e);
      ClaimedServiceSignals(r', q', s, i, e, flag);
    }
  }

  lemma ClaimedServiceSignals(r: Registry, q: Request, s: nat, i: nat, e: Info, flag: bv32)
    requires Inv(r) && WellShaped(r) && Claims(r, q) && SlotFor(r, UuidIn(q)) == s
    requires Registered(Handle(r, q).0, s, i, e) && e.cookie != 0
    ensures WellShaped(Handle(r, q).0) && IdSet(Handle(r, q).0, e.cookie, UuidIn(q), flag) == SignalOf(e, flag)
  {
    hide ApplyAll, Mappings, UuidOf, IdSet, Register, SlotFor;
    RegisteredSlot(r, q);
    var r' := Handle(r, q).0;
    assert r' == Register(r, q).0;
    assert SlotInv(r'.services[s].info);
    CookieIsFound(r'.services[s].info, i);
    IdSetSignalsTheRegistration(r', e.cookie, UuidIn(q), flag);
  }

  // ----- A concrete case

  lemma SecondPlaceIsFree()
    ensures ApplyAll(false, 8, [Mapping(2, 8, false)], FirstPlaceTaken(7, 1, 5), {1}).status == Success
  {
    var n, info := Mapping(2, 8, false), FirstPlaceTaken(7, 1, 5);
    assert !info[1].inUse && forall i :: 0 <= i < |info| && info[i].inUse ==> info[i].cookie == 5;
    var one := ApplyOne(false, 8, n, info, {1});
    assert one.status == Success;
    hide ApplyOne, FirstPlaceTaken;
    assert [n][1..] == [];
    assert ApplyAll(false, 8, [], one.info, one.mask).status == Success;
  }

  lemma LaterServiceClaims(r: Registry)
    requires r == Commit(Initial(), 0, Applied(InvalidParameter, FirstPlaceTaken(7, 1, 5), {1})) && WellShaped(r)
    ensures Claims(r, OneMapping(8, 0, 9, 2, Mapping(2, 8, false)))
  {
    hide UuidOf, Mappings, ApplyAll, Register, FirstPlaceTaken;
    var n := Mapping(2, 8, false);
    var q := OneMapping(8, 0, 9, 2, n);
    OneMappingCarries(8, 0, 9, 2, n);
    assert q.arg5 & 3 == 2;
    assert forall t :: 0 <= t < MAX_SERVICES ==> !r.services[t].inUse;
    assert Locate(r, UuidIn(q), false) == -1 && SlotFor(r, UuidIn(q)) == 0;
    SecondPlaceIsFree();
    RegisterSucceedsWithApply(r, q);
  }

  /** Partition 7 is refused under the UUID (0, 0) for sending ID 1 twice; partition 8 then registers under
      (0, 9); and signalling cookie 5 of that service signals partition 7. */
  lemma InheritedMappingExample(flag: bv32)
    ensures var q := TwoMappings(7, 0, 0, Mapping(1, 5, false), Mapping(1, 6, false));
            var q' := OneMapping(8, 0, 9, 2, Mapping(2, 8, false));
            && Permitted(q) && Permitted(q') && Inv(Initial()) && WellShaped(Handle(Initial(), q).0)
            && Handle(Initial(), q).1 == InvalidParameter
            && var (r', status) := Handle(Handle(Initial(), q).0, q');
               status == Success && WellShaped(r') && IdSet(r', 5, UuidOf(0, 9), flag) == Signal(7, flag, 1)
  {
    hide UuidOf, Mappings, Inv, IdSet;
    var m, m', n := Mapping(1, 5, false), Mapping(1, 6, false), Mapping(2, 8, false);
    var q, q' := TwoMappings(7, 0, 0, m, m'), OneMapping(8, 0, 9, 2, n);
    TwoMappingsCarries(7, 0, 0, m, m');
    OneMappingCarries(8, 0, 9, 2, n);
    InitialHoldsInv();
    PartialCommitExample();
    FirstRegistration(0, 0, 7, m);
    assert Locate(Initial(), UuidIn(q), false) == -1;
    assert q.arg5 & 3 == 2 && q'.arg5 & 3 == 2;
    assert Strands(Initial(), q);
    HandleKeepsInv(Initial(), q);
    var r := Handle(Initial(), q).0;
    InvIsWellShaped(r);
    LaterServiceClaims(r);
    InheritedMappingSignalsItsSender(Initial(), q, [], q', flag);
  }
}
