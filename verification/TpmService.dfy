/** The TPM service with its static state and CRB registers updated in place. */
module TpmService {
  import opened Tpm
  import opened TpmTheorems

  /** The bits set in the locality state register for the active locality. */
  method ActiveBits(active: nat) returns (field: bv32)
    ensures field == ActiveField(active)
  {
    match active
    case 1 => field := 0x4;
    case 2 => field := 0x8;
    case 3 => field := 0xC;
    case 4 => field := 0x10;
    case _ => field := 0;
  }

  class CrbService {
    var state: nat
    var active: nat
    var open: seq<bool>
    var crbs: seq<Crb>
    const bypass: bool

    ghost function View(): Service
      reads this
    {
      Service(state, active, open, crbs)
    }

    ghost predicate Shaped()
      reads this
    {
      WellShaped(View())
    }

    ghost predicate Valid()
      reads this
    {
      Shaped() && state <= COMPLETE
    }

    /** TpmServiceInit, with the statically zeroed locality table. */
    constructor (bypass: bool)
      ensures Valid() && View() == Initial() && this.bypass == bypass
    {
      this.bypass := bypass;
      open := seq(LOCALITIES, _ => false);
      crbs := seq(LOCALITIES, _ => FreshCrb());
      state := IDLE;
      active := NO_LOCALITY;
    }

    /** The zeroed registers, with identity, idle status and sizes set. */
    static method ResetRegisters() returns (c: Crb)
      ensures c == FreshCrb()
    {
      hide ZeroBuffer;
      c := Crb(0, 0, 0, 0, 0, 0, 0, 0, 0, 0, 0, 0, 0, ZeroBuffer());
      c := c.(interfaceId := INTERFACE_ID, status := STATUS_IDLE);
      c := c.(commandSize := BUFFER_SIZE, responseSize := BUFFER_SIZE);
    }

    method InitInternalCrb(locality: nat)
      requires Shaped() && locality < LOCALITIES
      modifies this`crbs
      ensures Shaped() && Quiet(crbs[locality])
      ensures crbs == old(crbs)[locality := FreshCrb()]
    {
      hide Quiet, FreshCrb;
      FreshCrbIsQuiet();
      var c := ResetRegisters();
      crbs := crbs[locality := c];
    }

    method CleanInternalCrb()
      requires Shaped()
      modifies this`crbs
      ensures Shaped() && View() == Clean(old(View()))
      ensures active != NO_LOCALITY ==> CleanRegisters(crbs[active], state)
      ensures forall l :: 0 <= l < LOCALITIES ==>
        crbs[l].buffer == old(crbs)[l].buffer && (l != active ==> crbs[l] == old(crbs)[l])
    {
      hide CleanRegisters;
      CleanServiceIsClean(View());
      if active == NO_LOCALITY {
        return;
      }
      var c := crbs[active];
      var field := ActiveBits(active);
      hide ActiveField;
      var locality := c.localityState | field | REG_VALID | LOCALITY_ASSIGNED;
      var status: bv32 := 0;
      if state == IDLE {
        status := STATUS_IDLE;
      }
      crbs := crbs[active :=
        Crb(locality, 0, c.localityStatus | GRANTED, INTERFACE_ID, 0, 0, status, 0, 0, 0, 0,
            BUFFER_SIZE, BUFFER_SIZE, c.buffer)];
    }

    method SetBuffer(buffer: seq<bv8>)
      requires Shaped() && active < LOCALITIES
      modifies this`crbs
      ensures crbs == old(crbs)[active := old(crbs)[active].(buffer := buffer)]
    {
      crbs := crbs[active := crbs[active].(buffer := buffer)];
    }

    /** HandleCommand; `b` answers whichever TpmSst call is made. */
    method HandleCommand(b: Backend) returns (reply: Reply)
      requires Shaped() && active < LOCALITIES
      modifies this
      ensures Shaped() && (View(), reply) == Command(old(View()), b, bypass)
    {
      hide ToReply, ZeroBuffer;
      var c := crbs[active];
      assert ToReply(EfiAccessDenied) == Denied && ToReply(EfiSuccess) == Ok by {
        Replies();
      }
      assert crbs[active := c.(buffer := c.buffer)] == crbs;
      var status := EfiAccessDenied;
      if state == IDLE {
        if c.request & COMMAND_READY != 0 {
          status := b.status;
          if status == EfiSuccess {
            state := READY;
          }
        }
      } else if state == READY {
        if c.request & GO_IDLE != 0 {
          status := b.status;
          if status == EfiSuccess {
            state := IDLE;
          }
        } else if c.request & COMMAND_READY != 0 {
          status := b.status;
        } else if c.start & START != 0 {
          status := b.status;
          if status == EfiSuccess {
            SetBuffer(b.response);
            state := COMPLETE;
          }
        }
      } else if state == COMPLETE {
        if c.request & GO_IDLE != 0 {
          status := b.status;
          if status == EfiSuccess {
            state := IDLE;
            SetBuffer(ZeroBuffer());
          }
        } else if c.request & COMMAND_READY != 0 {
          if bypass {
            status := b.status;
            if status == EfiSuccess {
              state := READY;
              SetBuffer(ZeroBuffer());
            }
          }
        } else if c.start & START != 0 {
          if bypass {
            status := b.status;
            if status == EfiSuccess {
              SetBuffer(b.response);
            }
          }
        }
      } else {
        status := b.status;
        if status == EfiSuccess {
          state := IDLE;
          SetBuffer(ZeroBuffer());
        }
      }
      reply := ToReply(status);
    }

    method HandleLocalityRequest(locality: nat, b: Backend) returns (reply: Reply)
      requires Shaped() && locality < LOCALITIES
      modifies this
      ensures Shaped() && (View(), reply) == LocalityRequest(old(View()), locality, b)
    {
      var control := crbs[locality].localityControl;
      var next;
      if control & RELINQUISH != 0 {
        if locality != active {
          return Denied;
        }
        next := NO_LOCALITY;
      } else if control & REQUEST_ACCESS != 0 {
        if active != NO_LOCALITY && active != locality {
          return Denied;
        }
        next := locality;
      } else {
        return Denied;
      }
      if b.status == EfiSuccess {
        InitInternalCrb(locality);
        active := next;
      }
      reply := ToReply(b.status);
    }

    /** StartHandler: a refusal moves nothing but the active registers, those registers end up clean,
        and the command state moves along the diagram. */
    method StartHandler(m: Message, b: Backend) returns (reply: Reply)
      requires Valid() && m.opcode == Start
      modifies this
      ensures Valid() && (View(), reply) == StartStep(old(View()), m, b, bypass)
      ensures Arrow(old(state), state, bypass) && open == old(open)
      ensures active != NO_LOCALITY ==> CleanRegisters(crbs[active], state)
      ensures reply != Ok ==> state == old(state) && active == old(active)
      ensures reply != Ok ==> forall l :: 0 <= l < LOCALITIES ==> crbs[l].buffer == old(crbs)[l].buffer
    {
      hide Command, LocalityRequest, CleanRegisters;
      StartMeaning(m, b);
      reply := Ok;
      if m.Locality() >= LOCALITIES {
        reply := InvArg;
      } else if !open[m.Locality()] {
        reply := Denied;
      } else if m.Function() == FUNC_COMMAND {
        if m.Locality() == active {
          reply := HandleCommand(b);
        } else {
          reply := InvArg;
        }
      } else if m.Function() == FUNC_LOCALITY {
        reply := HandleLocalityRequest(m.Locality(), b);
      } else {
        reply := InvArg;
      }
      CleanInternalCrb();
    }

    /** What the theorems about one step say of a Start from here. */
    lemma StartMeaning(m: Message, b: Backend)
      requires Valid() && m.opcode == Start
      ensures var (t, reply) := StartStep(View(), m, b, bypass);
              && WellShaped(t) && Arrow(state, t.state, bypass) && t.open == open
              && (t.active != NO_LOCALITY ==> CleanRegisters(t.crbs[t.active], t.state))
              && (reply != Ok ==>
                    && t.state == state && t.active == active
                    && forall l :: 0 <= l < LOCALITIES ==> t.crbs[l].buffer == crbs[l].buffer)
    {
      hide StartStep, CleanRegisters;
      var e := Event(crbs, m, b);
      assert Before(View(), e) == View() && Step(View(), e, bypass) == StartStep(View(), m, b, bypass);
      StepKeepsShape(View(), e, bypass);
      StepFollowsArrows(View(), e, bypass);
      StartLeavesCleanRegisters(View(), e, bypass);
      StartKeepsTable(View(), m, b, bypass);
      if StartStep(View(), m, b, bypass).1 != Ok {
        RefusedStartChangesNothing(View(), e, bypass);
      }
    }

    /** ManageLocalityHandler: the table changes only at firmware's word and only where it names. */
    method ManageLocalityHandler(m: Message) returns (reply: Reply)
      requires Valid() && m.opcode == ManageLocality
      modifies this`open
      ensures Valid() && (View(), reply) == ManageStep(old(View()), m)
      ensures open != old(open) ==> FromFirmware(m) && reply == Ok
      ensures forall l :: 0 <= l < LOCALITIES && l != m.Locality() ==> open[l] == old(open)[l]
      ensures reply == Ok <==> FromFirmware(m) && m.Locality() < LOCALITIES &&
                               (m.Function() == LOCALITY_OPEN || m.Function() == LOCALITY_CLOSE)
      ensures reply == Ok ==> (open[m.Locality()] <==> m.Function() == LOCALITY_OPEN)
    {
      reply := Ok;
      if m.source & 0xFF00 != 0xFF00 {
        reply := Denied;
      } else if m.Locality() >= LOCALITIES {
        reply := InvArg;
      } else if m.Function() == LOCALITY_OPEN {
        open := open[m.Locality() := true];
      } else if m.Function() == LOCALITY_CLOSE {
        open := open[m.Locality() := false];
      } else {
        reply := InvArg;
      }
    }

    /** TpmServiceHandle, entered after the host has left `host` in the registers. Whatever the
        message, the state moves along the diagram, the active locality only by request or
        relinquish, and the table only by firmware; a refused Start moves none of them. */
    method HandleMessage(host: seq<Crb>, m: Message, b: Backend) returns (reply: Reply)
      requires Valid() && |host| == LOCALITIES
      modifies this
      ensures Valid() && (View(), reply) == Step(old(View()), Event(host, m, b), bypass)
      ensures Arrow(old(state), state, bypass)
      ensures active == old(active) || RelinquishStep(old(View()), Event(host, m, b))
                                    || RequestStep(old(View()), Event(host, m, b))
      ensures forall l :: 0 <= l < LOCALITIES && open[l] != old(open)[l] ==>
                OpensLocality(Event(host, m, b), l) || ClosesLocality(Event(host, m, b), l)
      ensures m.opcode == Start && active != NO_LOCALITY ==> CleanRegisters(crbs[active], state)
      ensures m.opcode == Start && reply != Ok ==> state == old(state) && active == old(active) && open == old(open)
    {
      hide StartStep, ManageStep, CleanRegisters, RelinquishStep, RequestStep, OpensLocality, ClosesLocality;
      ghost var v, e := View(), Event(host, m, b);
      StepKeepsShape(v, e, bypass);
      StepMovesLocality(v, e, bypass);
      StepFollowsArrows(v, e, bypass);
      forall l: nat | l < LOCALITIES
        ensures Step(v, e, bypass).0.open[l] != v.open[l] ==> OpensLocality(e, l) || ClosesLocality(e, l)
      {
        StepMovesTable(v, e, bypass, l);
      }
      crbs := host;
      match m.opcode
      case GetInterfaceVersion => reply := ResultsReturned(MAJOR_VERSION * 0x1_0000 + MINOR_VERSION);
      case GetFeatureInfo => reply := NotSup;
      case Start => reply := StartHandler(m, b);
      case RegisterForNotification => reply := NotSup;
      case UnregisterFromNotification => reply := NotSup;
      case FinishNotified => reply := NotSup;
      case ManageLocality => reply := ManageLocalityHandler(m);
      case OtherOpcode => reply := NoFunc;
    }
  }
}
