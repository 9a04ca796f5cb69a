/** The TPM service as a state machine over FF-A messages.

    `Command` and its table of actions are the reference; `TpmService` holds the in-place form with
    the branches of the original. What the real TPM answers is a parameter of every step, and the
    host may have rewritten any register before it.
 */
module Tpm {

  const LOCALITIES: nat := 5
  const NO_LOCALITY: nat := LOCALITIES

  const IDLE: nat := 0
  const READY: nat := 1
  const COMPLETE: nat := 2

  const MAJOR_VERSION: nat := 1
  const MINOR_VERSION: nat := 0

  const FUNC_COMMAND: nat := 0
  const FUNC_LOCALITY: nat := 1
  const LOCALITY_OPEN: nat := 0
  const LOCALITY_CLOSE: nat := 1

  // Register bits of the PTP CRB interface.
  const COMMAND_READY: bv32 := 1
  const GO_IDLE: bv32 := 2
  const START: bv32 := 1
  const STATUS_IDLE: bv32 := 2
  const REQUEST_ACCESS: bv32 := 1
  const RELINQUISH: bv32 := 2
  const GRANTED: bv32 := 1
  const LOCALITY_ASSIGNED: bv32 := 2
  const REG_VALID: bv32 := 0x80

  /** CRB active, version 1, five localities, CRB supported. */
  const INTERFACE_ID: bv32 := 0x4111

  const BUFFER_SIZE: nat := 0xF80

  datatype Crb = Crb(
    localityState: bv32, localityControl: bv32, localityStatus: bv32, interfaceId: bv32,
    extension: bv32, request: bv32, status: bv32, cancel: bv32, start: bv32,
    interruptEnable: bv32, interruptStatus: bv32, commandSize: nat, responseSize: nat,
    buffer: seq<bv8>)

  datatype Service = Service(state: nat, active: nat, open: seq<bool>, crbs: seq<Crb>)

  datatype Opcode =
    | GetInterfaceVersion | GetFeatureInfo | Start | RegisterForNotification
    | UnregisterFromNotification | FinishNotified | ManageLocality | OtherOpcode

  datatype Message = Message(opcode: Opcode, source: bv16, arg1: nat, arg2: nat) {
    function Function(): nat {
      arg1 % 0x1_0000
    }
    function Locality(): nat {
      arg2 % 0x100
    }
  }

  datatype EfiStatus = EfiSuccess | EfiDeviceError | EfiBufferTooSmall | EfiAccessDenied | EfiOtherError

  datatype Reply = Ok | ResultsReturned(version: nat) | NoFunc | NotSup | InvArg | Denied | NoMem

  /** What the TPM behind the service answers to the one request a step may make of it. */
  datatype Backend = Backend(status: EfiStatus, response: seq<bv8>)

  function ToReply(s: EfiStatus): Reply {
    match s
    case EfiSuccess => Ok
    case EfiBufferTooSmall => NoMem
    case _ => Denied
  }

  lemma Replies()
    ensures ToReply(EfiAccessDenied) == Denied && ToReply(EfiSuccess) == Ok
  {
  }

  // ----- Registers

  function ZeroBuffer(): (b: seq<bv8>)
    ensures |b| == BUFFER_SIZE
  {
    seq(BUFFER_SIZE, _ => 0)
  }

  /** InitInternalCrb: everything zero but the identity, the idle status and the sizes. */
  function FreshCrb(): Crb {
    Crb(0, 0, 0, INTERFACE_ID, 0, 0, STATUS_IDLE, 0, 0, 0, 0, BUFFER_SIZE, BUFFER_SIZE, ZeroBuffer())
  }

  /** The active-locality field of the locality state register. */
  function ActiveField(locality: nat): bv32 {
    if locality == 1 then 0x4 else if locality == 2 then 0x8 else if locality == 3 then 0xC
    else if locality == 4 then 0x10 else 0
  }

  function CleanCrb(c: Crb, locality: nat, state: nat): Crb {
    Crb(c.localityState | ActiveField(locality) | REG_VALID | LOCALITY_ASSIGNED, 0, c.localityStatus | GRANTED,
        INTERFACE_ID, 0, 0, if state == IDLE then STATUS_IDLE else 0, 0, 0, 0, 0,
        BUFFER_SIZE, BUFFER_SIZE, c.buffer)
  }

  /** Registers as InitInternalCrb leaves them: nothing asked for, nothing granted, idle, the fixed identity
      and sizes, and a buffer of zeroes. */
  predicate Quiet(c: Crb) {
    && c.request == 0 && c.cancel == 0 && c.start == 0 && c.localityControl == 0
    && c.extension == 0 && c.interruptEnable == 0 && c.interruptStatus == 0
    && c.localityState == 0 && c.localityStatus == 0 && c.status == 2
    && c.interfaceId == 0x4111 && c.commandSize == c.responseSize == 0xF80
    && c.buffer == seq(0xF80, _ => 0)
  }

  /** The registers ask for nothing; they carry the identity (CRB interface, version 1, five localities, CRB
      supported) and the buffer size, show the locality as valid, granted and assigned, and report idle
      exactly in IDLE. */
  predicate CleanRegisters(c: Crb, state: nat) {
    && c.request == 0 && c.cancel == 0 && c.start == 0 && c.localityControl == 0
    && c.extension == 0 && c.interruptEnable == 0 && c.interruptStatus == 0
    && c.interfaceId == 0x4111 && c.commandSize == c.responseSize == 0xF80
    && c.localityStatus & 1 == 1 && c.localityState & 0x82 == 0x82
    && c.status == if state == 0 then 2 else 0
  }

  predicate WellShaped(t: Service) {
    |t.open| == LOCALITIES == |t.crbs| && t.active <= NO_LOCALITY
  }

  function Clean(t: Service): Service
    requires WellShaped(t)
  {
    if t.active == NO_LOCALITY then t
    else t.(crbs := t.crbs[t.active := CleanCrb(t.crbs[t.active], t.active, t.state)])
  }

  // ----- Commands: the state diagram as a table

  datatype Action = Nothing | CmdReady | GoIdle | Execute

  function ActionFor(state: nat, request: bv32, start: bv32, bypass: bool): Action {
    var ready, idle, go := request & COMMAND_READY != 0, request & GO_IDLE != 0, start & START != 0;
    if state == IDLE then (if ready then CmdReady else Nothing)
    else if state == READY then (if idle then GoIdle else if ready then CmdReady else if go then Execute else Nothing)
    else if state == COMPLETE then
      (if idle then GoIdle
       else if ready then (if bypass then CmdReady else Nothing)
       else if go && bypass then Execute else Nothing)
    else GoIdle
  }

  function Target(a: Action, state: nat): nat {
    match a
    case Nothing => state
    case CmdReady => READY
    case GoIdle => IDLE
    case Execute => COMPLETE
  }

  /** The data buffer after an action: a response replaces it, and leaving COMPLETE clears it. */
  function BufferAfter(a: Action, state: nat, buffer: seq<bv8>, response: seq<bv8>): seq<bv8> {
    if a == Execute then response
    else if a != Nothing && state >= COMPLETE then ZeroBuffer()
    else buffer
  }

  function CommandAction(t: Service, bypass: bool): Action
    requires WellShaped(t) && t.active < LOCALITIES
  {
    var c := t.crbs[t.active];
    ActionFor(t.state, c.request, c.start, bypass)
  }

  function Command(t: Service, b: Backend, bypass: bool): (Service, Reply)
    requires WellShaped(t) && t.active < LOCALITIES
  {
    var a := CommandAction(t, bypass);
    if a == Nothing then (t, Denied)
    else if b.status != EfiSuccess then (t, ToReply(b.status))
    else
      var c := t.crbs[t.active];
      (t.(state := Target(a, t.state),
          crbs := t.crbs[t.active := c.(buffer := BufferAfter(a, t.state, c.buffer, b.response))]),
       Ok)
  }

  // ----- Localities

  predicate Relinquishes(t: Service, locality: nat)
    requires WellShaped(t) && locality < LOCALITIES
  {
    t.crbs[locality].localityControl & RELINQUISH != 0 && locality == t.active
  }

  predicate Requests(t: Service, locality: nat)
    requires WellShaped(t) && locality < LOCALITIES
  {
    var control := t.crbs[locality].localityControl;
    && control & RELINQUISH == 0 && control & REQUEST_ACCESS != 0
    && (t.active == NO_LOCALITY || t.active == locality)
  }

  function LocalityRequest(t: Service, locality: nat, b: Backend): (Service, Reply)
    requires WellShaped(t) && locality < LOCALITIES
  {
    if !Relinquishes(t, locality) && !Requests(t, locality) then (t, Denied)
    else if b.status != EfiSuccess then (t, ToReply(b.status))
    else
      (t.(active := if Relinquishes(t, locality) then NO_LOCALITY else locality,
          crbs := t.crbs[locality := FreshCrb()]),
       Ok)
  }

  // ----- Messages

  function StartStep(t: Service, m: Message, b: Backend, bypass: bool): (Service, Reply)
    requires WellShaped(t)
  {
    var (t', reply) :=
      if m.Locality() >= LOCALITIES then (t, InvArg)
      else if !t.open[m.Locality()] then (t, Denied)
      else if m.Function() == FUNC_COMMAND then
        (if m.Locality() == t.active then Command(t, b, bypass) else (t, InvArg))
      else if m.Function() == FUNC_LOCALITY then LocalityRequest(t, m.Locality(), b)
      else (t, InvArg);
    (Clean(t'), reply)
  }

  predicate FromFirmware(m: Message) {
    m.source & 0xFF00 == 0xFF00
  }

  function ManageStep(t: Service, m: Message): (Service, Reply)
    requires WellShaped(t)
  {
    if !FromFirmware(m) then (t, Denied)
    else if m.Locality() >= LOCALITIES then (t, InvArg)
    else if m.Function() == LOCALITY_OPEN then (t.(open := t.open[m.Locality() := true]), Ok)
    else if m.Function() == LOCALITY_CLOSE then (t.(open := t.open[m.Locality() := false]), Ok)
    else (t, InvArg)
  }

  function Handle(t: Service, m: Message, b: Backend, bypass: bool): (Service, Reply)
    requires WellShaped(t)
  {
    match m.opcode
    case GetInterfaceVersion => (t, ResultsReturned(MAJOR_VERSION * 0x1_0000 + MINOR_VERSION))
    case Start => StartStep(t, m, b, bypass)
    case ManageLocality => ManageStep(t, m)
    case OtherOpcode => (t, NoFunc)
    case _ => (t, NotSup)
  }

  function Initial(): (t: Service)
    ensures WellShaped(t)
  {
    Service(IDLE, NO_LOCALITY, seq(LOCALITIES, _ => false), seq(LOCALITIES, _ => FreshCrb()))
  }

  // ----- Runs

  /** One message, the register contents the host left for it, and the TPM's answer. */
  datatype Event = Event(host: seq<Crb>, message: Message, backend: Backend)

  type Events = es: seq<Event> | forall e :: e in es ==> |e.host| == LOCALITIES

  function Before(t: Service, e: Event): Service {
    t.(crbs := e.host)
  }

  function Step(t: Service, e: Event, bypass: bool): (Service, Reply)
    requires WellShaped(t) && |e.host| == LOCALITIES
  {
    Handle(Before(t, e), e.message, e.backend, bypass)
  }

  lemma StepKeepsShape(t: Service, e: Event, bypass: bool)
    requires WellShaped(t) && |e.host| == LOCALITIES
    ensures WellShaped(Step(t, e, bypass).0)
  {
    hide ActionFor, CleanCrb, FreshCrb, BufferAfter, Target, ToReply;
  }

  /** The service after the first `k` events of a run from start-up. */
  function At(es: Events, k: nat, bypass: bool): (t: Service)
    requires k <= |es|
    ensures WellShaped(t)
  {
    if k == 0 then Initial()
    else
      StepKeepsShape(At(es, k - 1, bypass), es[k - 1], bypass);
      Step(At(es, k - 1, bypass), es[k - 1], bypass).0
  }

  /** The action the TPM carried out in this step, if the step was a successful command. */
  function Performed(t: Service, e: Event, bypass: bool): Action
    requires WellShaped(t) && |e.host| == LOCALITIES
  {
    var m := e.message;
    if && m.opcode == Start && m.Locality() < LOCALITIES && t.open[m.Locality()]
       && m.Function() == FUNC_COMMAND && m.Locality() == t.active && e.backend.status == EfiSuccess
    then CommandAction(Before(t, e), bypass)
    else Nothing
  }

  /** A successful relinquish of the active locality. */
  predicate RelinquishStep(t: Service, e: Event)
    requires WellShaped(t) && |e.host| == LOCALITIES
  {
    var m := e.message;
    && m.opcode == Start && m.Locality() < LOCALITIES && t.open[m.Locality()] && m.Function() == FUNC_LOCALITY
    && Relinquishes(Before(t, e), m.Locality()) && e.backend.status == EfiSuccess
  }

  /** A successful request for a locality. */
  predicate RequestStep(t: Service, e: Event)
    requires WellShaped(t) && |e.host| == LOCALITIES
  {
    var m := e.message;
    && m.opcode == Start && m.Locality() < LOCALITIES && t.open[m.Locality()] && m.Function() == FUNC_LOCALITY
    && Requests(Before(t, e), m.Locality()) && e.backend.status == EfiSuccess
  }

  predicate OpensLocality(e: Event, locality: nat) {
    var m := e.message;
    m.opcode == ManageLocality && FromFirmware(m) && m.Locality() == locality && m.Function() == LOCALITY_OPEN
  }

  predicate ClosesLocality(e: Event, locality: nat) {
    var m := e.message;
    m.opcode == ManageLocality && FromFirmware(m) && m.Locality() == locality && m.Function() == LOCALITY_CLOSE
  }
}
