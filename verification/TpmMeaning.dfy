/** What each message to the TPM service does, told from its arguments and the register bits. */
module TpmMeaning {
  import opened Tpm
  import opened TpmTheorems

  /** At start-up the service is idle, no locality is open or active, and every locality's registers are quiet. */
  lemma QuietAtStart()
    ensures var t := Initial();
            && t.state == 0 && t.active == 5 && |t.open| == |t.crbs| == 5
            && forall l :: 0 <= l < 5 ==> !t.open[l] && Quiet(t.crbs[l])
  {
    hide Quiet, FreshCrb;
    FreshCrbIsQuiet();
  }

  // ----- Commands

  /** The three requests a host can leave in the registers. */
  predicate WantsReady(c: Crb) {
    c.request & 1 != 0
  }

  predicate WantsIdle(c: Crb) {
    c.request & 2 != 0
  }

  predicate WantsStart(c: Crb) {
    c.start & 1 != 0
  }

  /** What the state diagram lets through: cmdReady in IDLE, all three in READY, goIdle in COMPLETE, and the
      others there only with idle bypass. */
  predicate LetThrough(state: nat, c: Crb, bypass: bool) {
    if state == 0 then WantsReady(c)
    else if state == 1 then WantsIdle(c) || WantsReady(c) || WantsStart(c)
    else WantsIdle(c) || (bypass && (WantsReady(c) || WantsStart(c)))
  }

  /** Where it leads: goIdle before cmdReady before start. */
  function Next(state: nat, c: Crb): nat {
    if state == 0 then 1 else if WantsIdle(c) then 0 else if WantsReady(c) then 1 else 2
  }

  /** What is in the data buffer then. */
  function BufferThen(state: nat, c: Crb, response: seq<bv8>): seq<bv8> {
    if state != 0 && !WantsIdle(c) && !WantsReady(c) then response
    else if state == 2 then seq(3968, _ => 0)
    else c.buffer
  }

  /** The reply to a request that was passed on to the TPM. */
  function Passed(s: EfiStatus): Reply {
    if s == EfiSuccess then Ok else if s == EfiBufferTooSmall then NoMem else Denied
  }

  /** A Start message for the locality `l` with this function qualifier. */
  predicate StartsAt(e: Event, qualifier: nat, l: nat) {
    |e.host| == 5 && e.message.opcode == Start && e.message.arg1 % 65536 == qualifier && e.message.arg2 % 256 == l
  }

  lemma ActionMeans(state: nat, c: Crb, bypass: bool, response: seq<bv8>)
    requires state <= 2
    ensures var a := ActionFor(state, c.request, c.start, bypass);
            && (a != Nothing <==> LetThrough(state, c, bypass))
            && (a != Nothing ==> Target(a, state) == Next(state, c))
            && (a != Nothing ==> BufferAfter(a, state, c.buffer, response) == BufferThen(state, c, response))
  {
  }

  /** A command on the open, active locality, in each state and for each request: it is let through exactly
      as the diagram says, with the TPM's answer as the reply; on success the state and the buffer move as
      asked, and otherwise nothing moves. */
  lemma CommandIsExact(t: Service, e: Event, bypass: bool)
    requires WellShaped(t) && t.state <= 2 && StartsAt(e, 0, t.active) && t.active < 5 && t.open[t.active]
    ensures WellShaped(Step(t, e, bypass).0)
    ensures var c := e.host[t.active];
            var (t', reply) := Step(t, e, bypass);
            && reply == (if LetThrough(t.state, c, bypass) then Passed(e.backend.status) else Denied)
            && t'.state == (if reply == Ok then Next(t.state, c) else t.state) && t'.active == t.active
            && t'.crbs[t.active].buffer ==
                 if reply == Ok then BufferThen(t.state, c, e.backend.response) else c.buffer
  {
    hide Step, ActionFor, Target, BufferAfter, LetThrough, Next, BufferThen, RelinquishStep, RequestStep;
    var c := e.host[t.active];
    StepKeepsShape(t, e, bypass);
    ActionMeans(t.state, c, bypass, e.backend.response);
    CommandReply(t, e, bypass);
    StepMovesState(t, e, bypass);
    StepMovesLocality(t, e, bypass);
    StepWritesBuffer(t, e, bypass, t.active);
    CommandIsNoLocalityStep(t, e);
    NothingStays(t.state);
  }

  lemma NothingStays(state: nat)
    ensures Target(Nothing, state) == state
  {
  }

  lemma CommandIsNoLocalityStep(t: Service, e: Event)
    requires WellShaped(t) && StartsAt(e, 0, t.active)
    ensures !RelinquishStep(t, e) && !RequestStep(t, e)
  {
  }

  lemma CommandReply(t: Service, e: Event, bypass: bool)
    requires WellShaped(t) && StartsAt(e, 0, t.active) && t.active < 5 && t.open[t.active]
    ensures var c := e.host[t.active];
            Step(t, e, bypass).1 ==
              if ActionFor(t.state, c.request, c.start, bypass) == Nothing then Denied else Passed(e.backend.status)
  {
    hide ActionFor, Clean, Target, BufferAfter;
  }

  // ----- Localities

  /** A locality request on an open locality. Giving the locality up goes before asking for it, and only its
      holder can give it up; it can be asked for by its holder, or when nobody holds any. On success the
      registers of that locality are reset, and it is the active one or none is. */
  lemma LocalityIsExact(t: Service, e: Event, bypass: bool, l: nat)
    requires WellShaped(t) && l < 5 && StartsAt(e, 1, l) && t.open[l]
    ensures WellShaped(Step(t, e, bypass).0)
    ensures var control := e.host[l].localityControl;
            var gives, asks := control & 2 != 0, control & 1 != 0;
            var passed := if gives then l == t.active else asks && (t.active == 5 || t.active == l);
            var (t', reply) := Step(t, e, bypass);
            && reply == (if passed then Passed(e.backend.status) else Denied)
            && t'.state == t.state
            && t'.active == (if reply != Ok then t.active else if gives then 5 else l)
            && (reply == Ok && gives ==> Quiet(t'.crbs[l]))
            && (reply == Ok && !gives ==>
                  CleanRegisters(t'.crbs[l], t.state) && t'.crbs[l].buffer == seq(3968, _ => 0)
                  && LocalityBits(0, 0, t'.crbs[l], l))
  {
    hide ActionFor, Quiet, CleanRegisters, CleanCrb, FreshCrb, LocalityBits;
    StepKeepsShape(t, e, bypass);
    FreshCrbIsQuiet();
    CleanCrbIsClean(FreshCrb(), l, t.state);
    FreshThenClean(l, t.state);
    hide ToReply;
    Replies();
    PassedIsReply(e.backend.status);
  }

  lemma PassedIsReply(s: EfiStatus)
    ensures ToReply(s) == Passed(s)
  {
  }

  lemma FreshThenClean(l: nat, state: nat)
    requires l < 5
    ensures var c := CleanCrb(FreshCrb(), l, state);
            c.buffer == seq(3968, _ => 0) && LocalityBits(0, 0, c, l)
  {
    CleanedLocalityBits(FreshCrb(), l, state);
  }

  lemma ActiveFieldIsShifted(l: nat)
    requires l < 5
    ensures ActiveField(l) == l as bv32 << 2
  {
  }

  predicate LocalityBits(state: bv32, status: bv32, c: Crb, l: nat)
    requires l < 5
  {
    c.localityState == state | (l as bv32 << 2) | 0x82 && c.localityStatus == status | 1
  }

  /** A Start that resets no locality leaves the bits of the two locality registers that the host set, and adds
      the number of the active locality, valid, assigned and granted. */
  lemma StartKeepsLocalityBits(t: Service, e: Event, bypass: bool)
    requires WellShaped(t) && |e.host| == 5 && e.message.opcode == Start && t.active < 5
    requires !RelinquishStep(t, e) && !RequestStep(t, e)
    ensures WellShaped(Step(t, e, bypass).0)
    ensures var c, c' := e.host[t.active], Step(t, e, bypass).0.crbs[t.active];
            LocalityBits(c.localityState, c.localityStatus, c', t.active)
  {
    hide LocalityBits, StartStep, CleanCrb, BeforeCleaning, RelinquishStep, RequestStep;
    StepKeepsShape(t, e, bypass);
    StartIsCleaned(Before(t, e), e.message, e.backend, bypass);
    KeptBeforeCleaning(t, e, bypass);
    var t0 := BeforeCleaning(Before(t, e), e.message, e.backend, bypass);
    CleanedLocalityBits(t0.crbs[t.active], t.active, t0.state);
  }

  lemma KeptBeforeCleaning(t: Service, e: Event, bypass: bool)
    requires WellShaped(t) && |e.host| == 5 && e.message.opcode == Start && t.active < 5
    requires !RelinquishStep(t, e) && !RequestStep(t, e)
    ensures var t0 := BeforeCleaning(Before(t, e), e.message, e.backend, bypass);
            && t0.active == t.active && t0.crbs[t.active].localityState == e.host[t.active].localityState
            && t0.crbs[t.active].localityStatus == e.host[t.active].localityStatus
  {
    hide ActionFor, BufferAfter, Target, FreshCrb;
  }

  lemma CleanedLocalityBits(c: Crb, l: nat, state: nat)
    requires l < 5
    ensures LocalityBits(c.localityState, c.localityStatus, CleanCrb(c, l, state), l)
  {
    ActiveFieldIsShifted(l);
    hide ActiveField;
    SetBits(c.localityState | ActiveField(l));
  }

  lemma SetBits(x: bv32)
    ensures x | REG_VALID | LOCALITY_ASSIGNED == x | 0x82
  {
  }

  // ----- Everything else

  /** Start messages that are turned away before any register is looked at. */
  lemma StartTurnsAway(t: Service, e: Event, bypass: bool)
    requires WellShaped(t) && |e.host| == 5 && e.message.opcode == Start
    ensures var l, f := e.message.arg2 % 256, e.message.arg1 % 65536;
            var reply := Step(t, e, bypass).1;
            && (l >= 5 ==> reply == InvArg)
            && (l < 5 && !t.open[l] ==> reply == Denied)
            && (l < 5 && t.open[l] && f == 0 && l != t.active ==> reply == InvArg)
            && (l < 5 && t.open[l] && f >= 2 ==> reply == InvArg)
  {
    hide ActionFor, Clean, CleanCrb;
  }

  /** Opening and closing: firmware is every partition whose ID starts with 0xFF. */
  lemma ManageIsExact(t: Service, e: Event, bypass: bool)
    requires WellShaped(t) && |e.host| == 5 && e.message.opcode == ManageLocality
    ensures WellShaped(Step(t, e, bypass).0)
    ensures var l, f := e.message.arg2 % 256, e.message.arg1 % 65536;
            var (t', reply) := Step(t, e, bypass);
            && reply == (if (e.message.source as nat) < 0xFF00 then Denied
                         else if l >= 5 || f >= 2 then InvArg else Ok)
            && t'.state == t.state && t'.active == t.active && t'.crbs == e.host
            && t'.open == if reply == Ok then t.open[l := f == 0] else t.open
  {
    FirmwareIds(e.message.source);
  }

  lemma FirmwareIds(source: bv16)
    ensures source & 0xFF00 == 0xFF00 <==> (source as nat) >= 0xFF00
  {
    assert source & 0xFF00 == 0xFF00 <==> source >= 0xFF00;
    assert source >= 0xFF00 <==> (source as nat) >= (0xFF00 as bv16) as nat;
  }

  /** The other messages change nothing; the version is 1.0. */
  lemma OthersAreExact(t: Service, e: Event, bypass: bool)
    requires WellShaped(t) && |e.host| == 5 && e.message.opcode != Start && e.message.opcode != ManageLocality
    ensures Step(t, e, bypass) ==
              (t.(crbs := e.host),
               if e.message.opcode == GetInterfaceVersion then ResultsReturned(0x1_0000)
               else if e.message.opcode == OtherOpcode then NoFunc
               else NotSup)
  {
  }

  // ----- From start-up to a response

  predicate FirmwareOpens(e: Event, l: nat) {
    && e.message.opcode == ManageLocality && (e.message.source as nat) >= 0xFF00
    && e.message.arg1 % 65536 == 0 && e.message.arg2 % 256 == l
  }

  /** The four messages it takes: firmware opens locality `l`, the host requests it, asks for cmdReady and then
      starts a command, and the TPM goes along. */
  predicate Boots(es: Events, l: nat) {
    && |es| == 4 && l < 5 && |es[0].host| == 5 && FirmwareOpens(es[0], l)
    && StartsAt(es[1], 1, l) && es[1].host[l].localityControl == 1 && es[1].backend.status == EfiSuccess
    && StartsAt(es[2], 0, l) && es[2].host[l].request == 1 && es[2].backend.status == EfiSuccess
    && StartsAt(es[3], 0, l) && es[3].host[l].request == 0 && es[3].host[l].start == 1
    && es[3].backend.status == EfiSuccess
  }

  /** The first two: the locality is open and active, and the state is IDLE. */
  lemma LocalityCanBeHeld(es: Events, l: nat, bypass: bool)
    requires Boots(es, l)
    ensures ReplyAt(es, 0, bypass) == Ok && ReplyAt(es, 1, bypass) == Ok
    ensures var t := At(es, 2, bypass);
            t.state == 0 && t.active == l && t.open[l]
  {
    hide Step, At, StartsAt, CleanRegisters, Quiet;
    AtUnfolds(es, 0, bypass);
    AtUnfolds(es, 1, bypass);
    AtUnfolds(es, 2, bypass);
    ManageIsExact(At(es, 0, bypass), es[0], bypass);
    LocalityIsExact(At(es, 1, bypass), es[1], bypass, l);
    StepMovesTable(At(es, 1, bypass), es[1], bypass, l);
    StartIsNoManage(es[1], l);
  }

  /** They are all answered with Ok, and leave the service in COMPLETE with the TPM's response in the buffer of
      that locality, whatever else the host wrote. */
  lemma CommandCanBeExecuted(es: Events, l: nat, bypass: bool)
    requires Boots(es, l)
    ensures forall k :: 0 <= k < 4 ==> ReplyAt(es, k, bypass) == Ok
    ensures var t := At(es, 4, bypass);
            t.state == 2 && t.active == l && t.crbs[l].buffer == es[3].backend.response
  {
    hide Step, At, LetThrough, Next, BufferThen, StartsAt, FirmwareOpens, ReplyAt;
    LocalityCanBeHeld(es, l, bypass);
    BootRequests(es[2].host[l], es[3].host[l], bypass);
    CommandAt(es, 2, l, bypass);
    CommandAt(es, 3, l, bypass);
  }

  /** A command on the open, active locality, as a step of a run. */
  lemma CommandAt(es: Events, k: nat, l: nat, bypass: bool)
    requires k < |es| && l < 5 && StartsAt(es[k], 0, l)
    requires var t := At(es, k, bypass); t.state <= 2 && t.active == l && t.open[l]
    ensures var t, t', c := At(es, k, bypass), At(es, k + 1, bypass), es[k].host[l];
            && ReplyAt(es, k, bypass) ==
                 (if LetThrough(t.state, c, bypass) then Passed(es[k].backend.status) else Denied)
            && (ReplyAt(es, k, bypass) == Ok ==>
                  && t'.state == Next(t.state, c) && t'.active == l && t'.open[l]
                  && t'.crbs[l].buffer == BufferThen(t.state, c, es[k].backend.response))
  {
    hide Step, At, LetThrough, Next, BufferThen, StartsAt, Passed;
    AtUnfolds(es, k + 1, bypass);
    StartIsNoManage(es[k], l);
    CommandIsExact(At(es, k, bypass), es[k], bypass);
    StepMovesTable(At(es, k, bypass), es[k], bypass, l);
  }

  lemma StartIsNoManage(e: Event, l: nat)
    ensures forall f :: StartsAt(e, f, l) ==> !OpensLocality(e, l) && !ClosesLocality(e, l)
  {
  }

  lemma BootRequests(c: Crb, d: Crb, bypass: bool)
    requires c.request == 1 && d.request == 0 && d.start == 1
    ensures LetThrough(0, c, bypass) && Next(0, c) == 1
    ensures LetThrough(1, d, bypass) && Next(1, d) == 2
    ensures forall response :: BufferThen(1, d, response) == response
  {
  }
}
