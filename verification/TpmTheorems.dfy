/** Safety of the TPM service over whole runs. */
module TpmTheorems {
  import opened Tpm

  // ----- One step

  /** The state follows the action performed, and nothing else moves it. */
  lemma StepMovesState(t: Service, e: Event, bypass: bool)
    requires WellShaped(t) && |e.host| == LOCALITIES
    ensures Step(t, e, bypass).0.state == Target(Performed(t, e, bypass), t.state)
  {
    hide CleanCrb, FreshCrb, ActionFor, BufferAfter, ToReply;
  }

  /** The active locality goes to none by a relinquish, from none by a request, and stays otherwise. */
  lemma StepMovesLocality(t: Service, e: Event, bypass: bool)
    requires WellShaped(t) && |e.host| == LOCALITIES
    ensures Step(t, e, bypass).0.active ==
              if RelinquishStep(t, e) then NO_LOCALITY
              else if RequestStep(t, e) then e.message.Locality()
              else t.active
    ensures RelinquishStep(t, e) ==> e.message.Locality() == t.active
    ensures RequestStep(t, e) ==> t.active == NO_LOCALITY || t.active == e.message.Locality()
  {
    hide CleanCrb, FreshCrb, ActionFor, BufferAfter, Target, ToReply;
  }

  /** Only firmware opens or closes a locality, and only the one it names. */
  lemma StepMovesTable(t: Service, e: Event, bypass: bool, locality: nat)
    requires WellShaped(t) && |e.host| == LOCALITIES && locality < LOCALITIES
    ensures Step(t, e, bypass).0.open[locality] ==
              if OpensLocality(e, locality) then true
              else if ClosesLocality(e, locality) then false
              else t.open[locality]
  {
    hide CleanCrb, FreshCrb, ActionFor, BufferAfter, Target, ToReply;
  }

  lemma StartKeepsTable(t: Service, m: Message, b: Backend, bypass: bool)
    requires WellShaped(t)
    ensures StartStep(t, m, b, bypass).0.open == t.open
  {
    hide ActionFor, CleanCrb;
  }

  // ----- The state diagram

  /** The arrows of Figure 4, self-loops included. */
  predicate Arrow(from: nat, to: nat, bypass: bool) {
    || (from == to && from <= COMPLETE)
    || (from == IDLE && to == READY)
    || (from == READY && to == IDLE)
    || (from == READY && to == COMPLETE)
    || (from == COMPLETE && to == IDLE)
    || (bypass && from == COMPLETE && to == READY)
  }

  lemma ActionsFollowArrows(state: nat, request: bv32, start: bv32, bypass: bool)
    requires state <= COMPLETE
    ensures Arrow(state, Target(ActionFor(state, request, start, bypass), state), bypass)
    ensures !bypass && ActionFor(state, request, start, bypass) == Execute ==> state == READY
    ensures !bypass && state == COMPLETE && ActionFor(state, request, start, bypass) != Nothing ==>
              ActionFor(state, request, start, bypass) == GoIdle
    ensures state == IDLE && ActionFor(state, request, start, bypass) != Nothing ==>
              ActionFor(state, request, start, bypass) == CmdReady
  {
  }

  /** In every run the state stays among the three, so the default case is never reached, and it
      moves only along the arrows. */
  lemma {:induction false} StateMovesAlongArrows(es: Events, k: nat, bypass: bool)
    requires k < |es|
    ensures At(es, k, bypass).state <= COMPLETE
    ensures Arrow(At(es, k, bypass).state, At(es, k + 1, bypass).state, bypass)
  {
    hide Step, CommandAction;
    if k > 0 {
      StateMovesAlongArrows(es, k - 1, bypass);
    }
    assert es[k] in es;
    var t := At(es, k, bypass);
    StepMovesState(t, es[k], bypass);
    PerformedIsAnAction(t, es[k], bypass);
  }

  lemma PerformedIsAnAction(t: Service, e: Event, bypass: bool)
    requires WellShaped(t) && |e.host| == LOCALITIES && t.state <= COMPLETE
    ensures var a := Performed(t, e, bypass);
            && Arrow(t.state, Target(a, t.state), bypass)
            && (!bypass && a == Execute ==> t.state == READY)
            && (!bypass && t.state == COMPLETE && a != Nothing ==> a == GoIdle)
            && (t.state == IDLE && a != Nothing ==> a == CmdReady)
  {
    if Performed(t, e, bypass) != Nothing {
      var c := e.host[t.active];
      ActionsFollowArrows(t.state, c.request, c.start, bypass);
    }
  }

  lemma StepFollowsArrows(t: Service, e: Event, bypass: bool)
    requires WellShaped(t) && |e.host| == LOCALITIES && t.state <= COMPLETE
    ensures Arrow(t.state, Step(t, e, bypass).0.state, bypass)
  {
    hide Step, Performed;
    StepMovesState(t, e, bypass);
    PerformedIsAnAction(t, e, bypass);
  }

  // ----- Two executions are always separated

  function PerformedAt(es: Events, k: nat, bypass: bool): Action
    requires k < |es|
  {
    assert es[k] in es;
    Performed(At(es, k, bypass), es[k], bypass)
  }

  lemma StepFacts(es: Events, k: nat, bypass: bool)
    requires k < |es|
    ensures At(es, k, bypass).state <= COMPLETE
    ensures At(es, k + 1, bypass).state == Target(PerformedAt(es, k, bypass), At(es, k, bypass).state)
    ensures var a := PerformedAt(es, k, bypass);
            && (!bypass && a == Execute ==> At(es, k, bypass).state == READY)
            && (!bypass && At(es, k, bypass).state == COMPLETE && a != Nothing ==> a == GoIdle)
            && (At(es, k, bypass).state == IDLE && a != Nothing ==> a == CmdReady)
  {
    hide Step, CommandAction, Performed;
    assert es[k] in es;
    StateMovesAlongArrows(es, k, bypass);
    StepMovesState(At(es, k, bypass), es[k], bypass);
    PerformedIsAnAction(At(es, k, bypass), es[k], bypass);
  }

  /** Leaving a state takes a step that leaves it. */
  lemma {:induction false} LeavingStep(es: Events, p: nat, q: nat, bypass: bool) returns (g: nat)
    requires p < q <= |es| && At(es, p, bypass).state != At(es, q, bypass).state
    ensures p <= g < q && At(es, g, bypass).state == At(es, p, bypass).state
    ensures At(es, g + 1, bypass).state != At(es, p, bypass).state
    decreases q - p
  {
    hide At;
    if At(es, q - 1, bypass).state == At(es, p, bypass).state {
      g := q - 1;
    } else {
      g := LeavingStep(es, p, q - 1, bypass);
    }
  }

  /** Without idle bypass, between any two executed commands there is a successful goIdle and,
      after it, a successful cmdReady. */
  lemma ExecutionsAreSeparated(es: Events, i: nat, j: nat) returns (g: nat, c: nat)
    requires i < j < |es| && PerformedAt(es, i, false) == Execute && PerformedAt(es, j, false) == Execute
    ensures i < g < c < j && PerformedAt(es, g, false) == GoIdle && PerformedAt(es, c, false) == CmdReady
    ensures At(es, c, false).state == IDLE
  {
    hide At, Performed, PerformedAt;
    StepFacts(es, i, false);
    StepFacts(es, j, false);
    g := LeavingStep(es, i + 1, j, false);
    StepFacts(es, g, false);
    c := LeavingStep(es, g + 1, j, false);
    StepFacts(es, c, false);
  }

  // ----- Localities

  /** The active locality changes hands only through a successful relinquish by its holder. */
  lemma {:induction false} LocalityChangesByRelinquish(es: Events, i: nat, j: nat, bypass: bool) returns (k: nat)
    requires i < j <= |es|
    requires At(es, i, bypass).active != NO_LOCALITY && At(es, j, bypass).active != At(es, i, bypass).active
    ensures i <= k < j && es[k] in es && At(es, k, bypass).active == At(es, i, bypass).active
    ensures RelinquishStep(At(es, k, bypass), es[k]) && es[k].message.Locality() == At(es, i, bypass).active
    decreases j - i
  {
    hide Step, RelinquishStep, RequestStep;
    if At(es, j - 1, bypass).active == At(es, i, bypass).active {
      k := j - 1;
      assert es[k] in es;
      StepMovesLocality(At(es, k, bypass), es[k], bypass);
    } else {
      k := LocalityChangesByRelinquish(es, i, j - 1, bypass);
    }
  }

  /** While the active locality is closed, no sequence of messages moves the state or the active
      locality, until firmware opens it again. */
  lemma {:induction false} ClosedLocalityFreezes(es: Events, i: nat, j: nat, bypass: bool)
    requires i <= j <= |es|
    requires var t := At(es, i, bypass); t.active != NO_LOCALITY && !t.open[t.active]
    requires forall k :: i <= k < j ==> !OpensLocality(es[k], At(es, i, bypass).active)
    ensures At(es, j, bypass).state == At(es, i, bypass).state
    ensures At(es, j, bypass).active == At(es, i, bypass).active
    ensures !At(es, j, bypass).open[At(es, i, bypass).active]
    decreases j - i
  {
    hide Step, OpensLocality, CommandAction, At;
    if i < j {
      ClosedLocalityFreezes(es, i, j - 1, bypass);
      AtUnfolds(es, j, bypass);
      var t, e := At(es, j - 1, bypass), es[j - 1];
      StepMovesState(t, e, bypass);
      StepMovesLocality(t, e, bypass);
      StepMovesTable(t, e, bypass, t.active);
    }
  }

  // ----- Start replies

  lemma CleanCrbIsClean(c: Crb, locality: nat, state: nat)
    ensures CleanRegisters(CleanCrb(c, locality, state), state)
  {
    hide ActiveField;
    assert forall x: bv32 {:trigger x | GRANTED} :: (x | GRANTED) & 1 == 1;
    assert forall x: bv32 {:trigger x | REG_VALID | LOCALITY_ASSIGNED} ::
      (x | REG_VALID | LOCALITY_ASSIGNED) & 0x82 == 0x82;
  }

  lemma FreshCrbIsQuiet()
    ensures Quiet(FreshCrb())
  {
  }

  lemma CleanServiceIsClean(t: Service)
    requires WellShaped(t)
    ensures var t' := Clean(t);
            && t'.state == t.state && t'.active == t.active && t'.open == t.open && |t'.crbs| == LOCALITIES
            && (t.active != NO_LOCALITY ==> CleanRegisters(t'.crbs[t.active], t.state))
            && forall l :: 0 <= l < LOCALITIES ==>
                 t'.crbs[l].buffer == t.crbs[l].buffer && (l != t.active ==> t'.crbs[l] == t.crbs[l])
  {
    hide CleanRegisters;
    if t.active != NO_LOCALITY {
      CleanCrbIsClean(t.crbs[t.active], t.active, t.state);
    }
  }

  /** After every Start the active locality's registers say what the service state says, whatever
      the host wrote: nothing is asked for, and idle is reported exactly in IDLE. */
  lemma StartLeavesCleanRegisters(t: Service, e: Event, bypass: bool)
    requires WellShaped(t) && |e.host| == LOCALITIES && e.message.opcode == Start
    ensures var t' := Step(t, e, bypass).0;
            t'.active != NO_LOCALITY ==> CleanRegisters(t'.crbs[t'.active], t'.state)
  {
    hide Clean, CleanRegisters, BeforeCleaning, StartStep;
    StepKeepsShape(t, e, bypass);
    var t0 := BeforeCleaning(Before(t, e), e.message, e.backend, bypass);
    StartIsCleaned(Before(t, e), e.message, e.backend, bypass);
    CleanServiceIsClean(t0);
  }

  /** The service at the end of a Start, just before the final clean-up. */
  function BeforeCleaning(t: Service, m: Message, b: Backend, bypass: bool): (t': Service)
    requires WellShaped(t)
    ensures WellShaped(t')
  {
    if m.Locality() >= LOCALITIES || !t.open[m.Locality()] then t
    else if m.Function() == FUNC_COMMAND && m.Locality() == t.active then Command(t, b, bypass).0
    else if m.Function() == FUNC_LOCALITY then LocalityRequest(t, m.Locality(), b).0
    else t
  }

  lemma StartIsCleaned(t: Service, m: Message, b: Backend, bypass: bool)
    requires WellShaped(t)
    ensures StartStep(t, m, b, bypass).0 == Clean(BeforeCleaning(t, m, b, bypass))
  {
    hide Command, LocalityRequest;
  }

  lemma RefusedStartKeepsTheService(t: Service, m: Message, b: Backend, bypass: bool)
    requires WellShaped(t)
    ensures StartStep(t, m, b, bypass).1 != Ok ==> BeforeCleaning(t, m, b, bypass) == t
  {
    hide Clean, ActionFor;
  }

  /** A Start that is refused moves nothing but the registers of the active locality. */
  lemma RefusedStartChangesNothing(t: Service, e: Event, bypass: bool)
    requires WellShaped(t) && |e.host| == LOCALITIES && e.message.opcode == Start
    requires Step(t, e, bypass).1 != Ok
    ensures var t' := Step(t, e, bypass).0;
            && t'.state == t.state && t'.active == t.active && t'.open == t.open
            && forall l :: 0 <= l < LOCALITIES ==> t'.crbs[l].buffer == e.host[l].buffer
  {
    hide Clean, StartStep, BeforeCleaning;
    var t0 := Before(t, e);
    StartIsCleaned(t0, e.message, e.backend, bypass);
    RefusedStartKeepsTheService(t0, e.message, e.backend, bypass);
    CleanServiceIsClean(t0);
  }

  /** The register keeps any locality bits the host wrote: bits 2 to 4 give the active locality's number exactly
      when the host left no bit of another number there. */
  lemma ActiveFieldIsRightExactly(c: Crb, locality: nat, state: nat)
    requires locality < 5
    ensures (CleanCrb(c, locality, state).localityState >> 2) & 7 == locality as bv32 <==>
              (c.localityState >> 2) & 7 & !(locality as bv32) == 0
  {
    var x, field := c.localityState, ActiveField(locality);
    if locality == 0 {
      assert ((x | 0 | REG_VALID | LOCALITY_ASSIGNED) >> 2) & 7 == (x >> 2) & 7;
    } else if locality == 1 {
      assert ((x | 0x4 | REG_VALID | LOCALITY_ASSIGNED) >> 2) & 7 == ((x >> 2) & 7) | 1;
    } else if locality == 2 {
      assert ((x | 0x8 | REG_VALID | LOCALITY_ASSIGNED) >> 2) & 7 == ((x >> 2) & 7) | 2;
    } else if locality == 3 {
      assert ((x | 0xC | REG_VALID | LOCALITY_ASSIGNED) >> 2) & 7 == ((x >> 2) & 7) | 3;
    } else {
      assert ((x | 0x10 | REG_VALID | LOCALITY_ASSIGNED) >> 2) & 7 == ((x >> 2) & 7) | 4;
    }
  }

  /** A host that leaves 0x4 in the register makes locality 2 read as locality 3. */
  lemma ActiveFieldExample()
    ensures var c := FreshCrb().(localityState := 0x4);
            (CleanCrb(c, 2, READY).localityState >> 2) & 7 == 3
  {
  }

  // ----- Where a response can be

  /** What a step leaves in each data buffer. */
  lemma StepWritesBuffer(t: Service, e: Event, bypass: bool, l: nat)
    requires WellShaped(t) && |e.host| == LOCALITIES && l < LOCALITIES
    ensures WellShaped(Step(t, e, bypass).0)
    ensures Step(t, e, bypass).0.crbs[l].buffer ==
              if l == t.active && Performed(t, e, bypass) != Nothing
              then BufferAfter(Performed(t, e, bypass), t.state, e.host[l].buffer, e.backend.response)
              else if (RelinquishStep(t, e) || RequestStep(t, e)) && l == e.message.Locality() then ZeroBuffer()
              else e.host[l].buffer
  {
    hide ActionFor, ZeroBuffer, StartStep, BufferAfter, Clean;
    StepKeepsShape(t, e, bypass);
    if e.message.opcode == Start {
      var t0 := BeforeCleaning(Before(t, e), e.message, e.backend, bypass);
      StartIsCleaned(Before(t, e), e.message, e.backend, bypass);
      CleanServiceIsClean(t0);
      BufferBeforeCleaning(t, e, bypass, l);
    }
  }

  lemma BufferBeforeCleaning(t: Service, e: Event, bypass: bool, l: nat)
    requires WellShaped(t) && |e.host| == LOCALITIES && l < LOCALITIES && e.message.opcode == Start
    ensures BeforeCleaning(Before(t, e), e.message, e.backend, bypass).crbs[l].buffer ==
              if l == t.active && Performed(t, e, bypass) != Nothing
              then BufferAfter(Performed(t, e, bypass), t.state, e.host[l].buffer, e.backend.response)
              else if (RelinquishStep(t, e) || RequestStep(t, e)) && l == e.message.Locality() then ZeroBuffer()
              else e.host[l].buffer
  {
    hide ActionFor, ZeroBuffer, BufferAfter, ToReply, Target;
  }

  /** Where and when the host may write command bytes: in READY and, with idle bypass, in COMPLETE. */
  predicate TakesCommands(state: nat, bypass: bool) {
    state == READY || (bypass && state == COMPLETE)
  }

  /** The host writes command bytes only where and when they can be taken: into the active locality's
      buffer. Everything else it may still write as it likes. */
  ghost predicate HostWritesCommandsOnly(es: Events, bypass: bool) {
    forall k, l :: 0 <= k < |es| && 0 <= l < LOCALITIES ==> HostLeaves(es, k, l, bypass)
  }

  ghost predicate HostLeaves(es: Events, k: nat, l: nat, bypass: bool)
    requires k < |es| && l < LOCALITIES
  {
    assert es[k] in es;
    BufferLeft(At(es, k, bypass), es[k], l, bypass)
  }

  ghost predicate BufferLeft(t: Service, e: Event, l: nat, bypass: bool)
    requires WellShaped(t) && |e.host| == LOCALITIES && l < LOCALITIES
  {
    e.host[l].buffer == t.crbs[l].buffer || (l == t.active && TakesCommands(t.state, bypass))
  }

  /** The response of the last command executed before step `k`. */
  function LastResponse(es: Events, k: nat, bypass: bool): seq<bv8>
    requires k <= |es|
  {
    if k == 0 then ZeroBuffer()
    else if PerformedAt(es, k - 1, bypass) == Execute then es[k - 1].backend.response
    else LastResponse(es, k - 1, bypass)
  }

  /** The bytes the host left for the service as a command, if it takes one now. */
  function Written(t: Service, e: Event, bypass: bool): set<seq<bv8>>
    requires WellShaped(t) && |e.host| == LOCALITIES
  {
    if t.active < LOCALITIES && TakesCommands(t.state, bypass) then {e.host[t.active].buffer} else {}
  }

  /** What the host left in the active buffer after the last command executed before step `k`: it can be
      a next command only where one is taken. */
  function NextCommands(es: Events, k: nat, bypass: bool): set<seq<bv8>>
    requires k <= |es|
  {
    if k == 0 || PerformedAt(es, k - 1, bypass) == Execute then {}
    else
      var t := At(es, k - 1, bypass);
      assert es[k - 1] in es;
      NextCommands(es, k - 1, bypass) + Written(t, es[k - 1], bypass)
  }

  /** Only the active locality's buffer is not zero, and in COMPLETE it holds the last response or, with
      idle bypass, a next command. */
  ghost predicate Confined(t: Service, last: seq<bv8>, next: set<seq<bv8>>, bypass: bool)
    requires WellShaped(t)
  {
    forall l :: 0 <= l < LOCALITIES ==>
      || t.crbs[l].buffer == ZeroBuffer()
      || (l == t.active && (t.state == COMPLETE ==> t.crbs[l].buffer == last || (bypass && t.crbs[l].buffer in next)))
  }

  lemma StepConfines(t: Service, e: Event, bypass: bool, last: seq<bv8>, next: set<seq<bv8>>)
    requires WellShaped(t) && |e.host| == LOCALITIES && t.state <= COMPLETE && Confined(t, last, next, bypass)
    requires forall l: nat :: l < LOCALITIES ==> BufferLeft(t, e, l, bypass)
    ensures WellShaped(Step(t, e, bypass).0)
    ensures Confined(Step(t, e, bypass).0,
                     if Performed(t, e, bypass) == Execute then e.backend.response else last,
                     if Performed(t, e, bypass) == Execute then {} else next + Written(t, e, bypass), bypass)
    ensures t.state == COMPLETE && Step(t, e, bypass).0.state != COMPLETE ==> NoData(Step(t, e, bypass).0)
  {
    hide Step, Performed, ZeroBuffer, RelinquishStep, RequestStep;
    StepMovesState(t, e, bypass);
    StepMovesLocality(t, e, bypass);
    PerformedNeedsCommand(t, e, bypass);
    StepKeepsShape(t, e, bypass);
    var t', execute := Step(t, e, bypass).0, Performed(t, e, bypass) == Execute;
    var last' := if execute then e.backend.response else last;
    var next' := if execute then {} else next + Written(t, e, bypass);
    forall l: nat | l < LOCALITIES
      ensures || t'.crbs[l].buffer == ZeroBuffer()
              || (l == t'.active && (t'.state == COMPLETE ==>
                    t'.crbs[l].buffer == last' || (bypass && t'.crbs[l].buffer in next')))
      ensures t.state == COMPLETE && t'.state != COMPLETE ==> t'.crbs[l].buffer == ZeroBuffer()
    {
      StepWritesBuffer(t, e, bypass, l);
      assert BufferLeft(t, e, l, bypass);
    }
  }

  ghost predicate NoData(t: Service) {
    forall l :: 0 <= l < |t.crbs| ==> t.crbs[l].buffer == ZeroBuffer()
  }

  lemma PerformedNeedsCommand(t: Service, e: Event, bypass: bool)
    requires WellShaped(t) && |e.host| == LOCALITIES
    ensures Performed(t, e, bypass) != Nothing ==> !RelinquishStep(t, e) && !RequestStep(t, e) && t.active < LOCALITIES
    ensures RelinquishStep(t, e) || RequestStep(t, e) ==> e.message.Locality() < LOCALITIES
  {
  }

  /** Over every run, a buffer that is not zero is the active locality's, and in COMPLETE it holds the
      response of the last executed command or, with idle bypass, what the host wrote since. */
  lemma {:induction false} ResponseIsConfined(es: Events, k: nat, bypass: bool)
    requires HostWritesCommandsOnly(es, bypass) && k <= |es|
    ensures Confined(At(es, k, bypass), LastResponse(es, k, bypass), NextCommands(es, k, bypass), bypass)
  {
    hide Step, At, Confined, Performed, PerformedAt;
    AtUnfolds(es, k, bypass);
    if k == 0 {
      InitialIsConfined(bypass);
    } else {
      ResponseIsConfined(es, k - 1, bypass);
      ConfinedStep(es, k - 1, bypass);
    }
  }

  lemma InitialIsConfined(bypass: bool)
    ensures Confined(Initial(), ZeroBuffer(), {}, bypass)
  {
  }

  lemma ConfinedStep(es: Events, k: nat, bypass: bool)
    requires HostWritesCommandsOnly(es, bypass) && k < |es|
    requires Confined(At(es, k, bypass), LastResponse(es, k, bypass), NextCommands(es, k, bypass), bypass)
    ensures Confined(At(es, k + 1, bypass), LastResponse(es, k + 1, bypass), NextCommands(es, k + 1, bypass), bypass)
    ensures At(es, k, bypass).state == COMPLETE && At(es, k + 1, bypass).state != COMPLETE ==>
              NoData(At(es, k + 1, bypass))
  {
    hide Step, At, Confined, Performed, ZeroBuffer, NoData, BufferLeft, Written;
    AtUnfolds(es, k + 1, bypass);
    StepFacts(es, k, bypass);
    assert es[k] in es;
    forall l: nat | l < LOCALITIES ensures BufferLeft(At(es, k, bypass), es[k], l, bypass) {
      assert HostLeaves(es, k, l, bypass);
    }
    StepConfines(At(es, k, bypass), es[k], bypass, LastResponse(es, k, bypass), NextCommands(es, k, bypass));
  }

  /** The moment the state leaves COMPLETE no buffer of any locality holds anything. */
  lemma NothingOutlivesComplete(es: Events, k: nat, bypass: bool)
    requires HostWritesCommandsOnly(es, bypass) && k < |es|
    requires At(es, k, bypass).state == COMPLETE && At(es, k + 1, bypass).state != COMPLETE
    ensures NoData(At(es, k + 1, bypass))
  {
    hide At, NoData, HostWritesCommandsOnly, Confined, LastResponse, NextCommands;
    ResponseIsConfined(es, k, bypass);
    ConfinedStep(es, k, bypass);
  }

  // ----- Inactive localities do not matter

  predicate SameControl(t: Service, t': Service) {
    t.state == t'.state && t.active == t'.active && t.open == t'.open
  }

  /** The two services agree on everything but the registers of inactive localities. */
  predicate SameService(t: Service, t': Service)
    requires WellShaped(t) && WellShaped(t')
  {
    SameControl(t, t') && (t.active < LOCALITIES ==> t.crbs[t.active] == t'.crbs[t.active])
  }

  lemma CommandIgnoresInactive(t: Service, t': Service, b: Backend, bypass: bool)
    requires WellShaped(t) && WellShaped(t') && SameService(t, t') && t.active < LOCALITIES
    ensures SameService(Command(t, b, bypass).0, Command(t', b, bypass).0)
    ensures Command(t, b, bypass).1 == Command(t', b, bypass).1
  {
    hide ActionFor, BufferAfter;
  }

  /** A locality request looks at one register, and a granted one erases everything else. */
  lemma LocalityIgnoresInactive(t: Service, t': Service, locality: nat, b: Backend)
    requires WellShaped(t) && WellShaped(t') && SameService(t, t') && locality < LOCALITIES
    requires t.crbs[locality].localityControl == t'.crbs[locality].localityControl
    ensures SameService(LocalityRequest(t, locality, b).0, LocalityRequest(t', locality, b).0)
    ensures LocalityRequest(t, locality, b).1 == LocalityRequest(t', locality, b).1
  {
    hide FreshCrb, ToReply;
  }

  lemma CleanIgnoresInactive(t: Service, t': Service)
    requires WellShaped(t) && WellShaped(t') && SameService(t, t')
    ensures WellShaped(Clean(t)) && WellShaped(Clean(t')) && SameService(Clean(t), Clean(t'))
  {
    hide CleanCrb;
  }

  /** The control register of the locality a message names is the same in both. */
  predicate SameRequest(m: Message, h: seq<Crb>, h': seq<Crb>)
    requires |h| == |h'| == LOCALITIES
  {
    m.Locality() < LOCALITIES ==> h[m.Locality()].localityControl == h'[m.Locality()].localityControl
  }

  lemma StartIgnoresInactive(t: Service, t': Service, m: Message, b: Backend, bypass: bool)
    requires WellShaped(t) && WellShaped(t') && SameService(t, t') && SameRequest(m, t.crbs, t'.crbs)
    ensures WellShaped(StartStep(t, m, b, bypass).0) && WellShaped(StartStep(t', m, b, bypass).0)
    ensures SameService(StartStep(t, m, b, bypass).0, StartStep(t', m, b, bypass).0)
    ensures StartStep(t, m, b, bypass).1 == StartStep(t', m, b, bypass).1
  {
    hide Command, LocalityRequest, Clean;
    if m.Locality() < LOCALITIES {
      LocalityIgnoresInactive(t, t', m.Locality(), b);
      if m.Locality() == t.active {
        CommandIgnoresInactive(t, t', b, bypass);
      }
    }
    StartIsCleaned(t, m, b, bypass);
    StartIsCleaned(t', m, b, bypass);
    CleanIgnoresInactive(BeforeCleaning(t, m, b, bypass), BeforeCleaning(t', m, b, bypass));
  }

  lemma ManageIgnoresInactive(t: Service, t': Service, m: Message)
    requires WellShaped(t) && WellShaped(t') && SameService(t, t')
    ensures WellShaped(ManageStep(t, m).0) && WellShaped(ManageStep(t', m).0)
    ensures SameService(ManageStep(t, m).0, ManageStep(t', m).0) && ManageStep(t, m).1 == ManageStep(t', m).1
  {
  }

  lemma StepIgnoresInactive(t: Service, t': Service, e: Event, e': Event, bypass: bool)
    requires WellShaped(t) && WellShaped(t') && |e.host| == |e'.host| == LOCALITIES
    requires SameService(Before(t, e), Before(t', e')) && SameRequest(e.message, e.host, e'.host)
    requires e.message == e'.message && e.backend == e'.backend
    ensures WellShaped(Step(t, e, bypass).0) && WellShaped(Step(t', e', bypass).0)
    ensures SameService(Step(t, e, bypass).0, Step(t', e', bypass).0)
    ensures Step(t, e, bypass).1 == Step(t', e', bypass).1
  {
    hide StartStep, ManageStep, SameService, SameRequest;
    StartIgnoresInactive(Before(t, e), Before(t', e'), e.message, e.backend, bypass);
    ManageIgnoresInactive(Before(t, e), Before(t', e'), e.message);
  }

  /** Before a message the host wrote the same registers in both runs, or left them alone in both. */
  predicate WrittenAlike(c: Crb, c': Crb, h: Crb, h': Crb) {
    h == h' || (h == c && h' == c')
  }

  ghost predicate AlikeAt(es: Events, fs: Events, i: nat, bypass: bool)
    requires i < |es| == |fs|
  {
    assert es[i] in es && fs[i] in fs;
    var active := At(es, i, bypass).active;
    && es[i].message == fs[i].message && es[i].backend == fs[i].backend
    && SameRequest(es[i].message, es[i].host, fs[i].host)
    && (active < LOCALITIES ==>
          WrittenAlike(At(es, i, bypass).crbs[active], At(fs, i, bypass).crbs[active],
                       es[i].host[active], fs[i].host[active]))
  }

  /** Two runs with the same messages and TPM answers, in which the host's writes to inactive
      localities differ arbitrarily, except in the control register that a message is about. */
  ghost predicate AlikeRuns(es: Events, fs: Events, bypass: bool) {
    |es| == |fs| && forall i :: 0 <= i < |es| ==> AlikeAt(es, fs, i, bypass)
  }

  lemma AtUnfolds(es: Events, k: nat, bypass: bool)
    requires k <= |es|
    ensures k == 0 ==> At(es, k, bypass) == Initial()
    ensures k > 0 ==> es[k - 1] in es && At(es, k, bypass) == Step(At(es, k - 1, bypass), es[k - 1], bypass).0
  {
    hide Step;
  }

  lemma AlikeStep(es: Events, fs: Events, k: nat, bypass: bool)
    requires k < |es| == |fs| && AlikeAt(es, fs, k, bypass) && SameService(At(es, k, bypass), At(fs, k, bypass))
    ensures SameService(At(es, k + 1, bypass), At(fs, k + 1, bypass))
    ensures ReplyAt(es, k, bypass) == ReplyAt(fs, k, bypass)
  {
    hide Step, At, SameRequest;
    AtUnfolds(es, k + 1, bypass);
    AtUnfolds(fs, k + 1, bypass);
    StepIgnoresInactive(At(es, k, bypass), At(fs, k, bypass), es[k], fs[k], bypass);
  }

  /** They go through the same states, and the active locality's registers stay the same too: whatever was
      written to a locality before it is requested is lost ... */
  lemma {:induction false} RunsIgnoreInactive(es: Events, fs: Events, k: nat, bypass: bool)
    requires AlikeRuns(es, fs, bypass) && k <= |es|
    ensures SameService(At(es, k, bypass), At(fs, k, bypass))
  {
    hide AlikeAt, SameService, Step;
    if k == 0 {
      SameAtTheStart(es, fs, bypass);
    } else {
      RunsIgnoreInactive(es, fs, k - 1, bypass);
      assert AlikeAt(es, fs, k - 1, bypass);
      AlikeStep(es, fs, k - 1, bypass);
    }
  }

  lemma SameAtTheStart(es: Events, fs: Events, bypass: bool)
    ensures SameService(At(es, 0, bypass), At(fs, 0, bypass))
  {
  }

  function ReplyAt(es: Events, k: nat, bypass: bool): Reply
    requires k < |es|
  {
    assert es[k] in es;
    Step(At(es, k, bypass), es[k], bypass).1
  }

  /** ... and they get the same replies. */
  lemma RepliesIgnoreInactive(es: Events, fs: Events, k: nat, bypass: bool)
    requires AlikeRuns(es, fs, bypass) && k < |es|
    ensures ReplyAt(es, k, bypass) == ReplyAt(fs, k, bypass)
  {
    hide AlikeAt, SameService, Step, At, ReplyAt;
    RunsIgnoreInactive(es, fs, k, bypass);
    assert AlikeAt(es, fs, k, bypass);
    AlikeStep(es, fs, k, bypass);
  }
}
