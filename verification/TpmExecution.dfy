/** Executing a command, end to end: the service's state machine with the transfer to the TPM plugged in
    as its backend, and the size registers that the transfer goes by. */
module TpmExecution {
  import opened Tpm
  import opened TpmTheorems
  import Transfer = TpmTransfer

  /** What the transfer's status is as an EFI status; the code of a failed yield comes from outside. */
  function ToEfi(s: Transfer.Status, yieldError: EfiStatus): EfiStatus {
    match s
    case Success => EfiSuccess
    case Timeout => EfiOtherError
    case YieldError => yieldError
  }

  /** The copies that the size registers ask for stay inside the local buffer. */
  predicate SizesInside(i: Transfer.Interface, c: Crb) {
    Transfer.Inside(i, |c.buffer|, c.commandSize, c.responseSize)
  }

  function Transferred(i: Transfer.Interface, device: Transfer.Device, c: Crb): (Transfer.Status, seq<bv8>)
    requires SizesInside(i, c)
  {
    Transfer.StartOutcome(i, device, c.buffer, c.commandSize, c.responseSize)
  }

  /** The answer of a step that starts the transfer on the registers the host left. */
  function BackendOf(i: Transfer.Interface, device: Transfer.Device, c: Crb, yieldError: EfiStatus): Backend
    requires SizesInside(i, c)
  {
    var (status, buffer) := Transferred(i, device, c);
    Backend(ToEfi(status, yieldError), buffer)
  }

  /** The message starts a command on the open, active locality, and the registers ask for execution. */
  predicate StartsExecution(t: Service, e: Event, bypass: bool)
    requires WellShaped(t) && |e.host| == LOCALITIES
  {
    var m := e.message;
    && m.opcode == Start && m.Locality() == t.active < LOCALITIES && t.open[t.active]
    && m.Function() == FUNC_COMMAND && CommandAction(Before(t, e), bypass) == Execute
  }

  lemma TransferKeepsBufferOnError(i: Transfer.Interface, device: Transfer.Device, c: Crb)
    requires SizesInside(i, c)
    ensures Transferred(i, device, c).0 != Transfer.Success ==> Transferred(i, device, c).1 == c.buffer
  {
    hide Transfer.CrbFinish, Transfer.FifoStatus;
  }

  lemma StartedIsPerformed(t: Service, e: Event, bypass: bool)
    requires WellShaped(t) && |e.host| == LOCALITIES && StartsExecution(t, e, bypass)
    ensures Performed(t, e, bypass) == if e.backend.status == EfiSuccess then Execute else Nothing
    ensures !RelinquishStep(t, e) && !RequestStep(t, e)
    ensures Step(t, e, bypass).1 == ToReply(e.backend.status)
  {
    hide ActionFor, CleanCrb;
  }

  /** Whatever the interface and the TPM: the data buffer ends as the transfer of the host's bytes and sizes
      leaves it, error or not; the step succeeds, and the state becomes COMPLETE, exactly when the
      transfer succeeds; every other buffer is as the host left it. */
  lemma ExecuteRunsTheTransfer(
      t: Service, e: Event, bypass: bool, i: Transfer.Interface, device: Transfer.Device, yieldError: EfiStatus)
    requires WellShaped(t) && |e.host| == LOCALITIES && StartsExecution(t, e, bypass) && yieldError != EfiSuccess
    requires SizesInside(i, e.host[t.active]) && e.backend == BackendOf(i, device, e.host[t.active], yieldError)
    ensures WellShaped(Step(t, e, bypass).0)
    ensures var (status, buffer) := Transferred(i, device, e.host[t.active]);
            var (t', reply) := Step(t, e, bypass);
            && t'.crbs[t.active].buffer == buffer
            && (reply == Ok <==> status == Transfer.Success)
            && t'.state == (if status == Transfer.Success then COMPLETE else t.state) && t'.active == t.active
            && forall l :: 0 <= l < LOCALITIES && l != t.active ==> t'.crbs[l].buffer == e.host[l].buffer
  {
    hide Step, Performed, Transferred, SizesInside, StartsExecution, RelinquishStep, RequestStep;
    StepKeepsShape(t, e, bypass);
    StartedIsPerformed(t, e, bypass);
    StepMovesState(t, e, bypass);
    StepMovesLocality(t, e, bypass);
    ActiveIsALocality(t, e, bypass);
    TransferKeepsBufferOnError(i, device, e.host[t.active]);
    forall l: nat | l < LOCALITIES
      ensures Step(t, e, bypass).0.crbs[l].buffer ==
                if l == t.active then Transferred(i, device, e.host[t.active]).1 else e.host[l].buffer
    {
      StepWritesBuffer(t, e, bypass, l);
    }
  }

  lemma ActiveIsALocality(t: Service, e: Event, bypass: bool)
    requires WellShaped(t) && |e.host| == LOCALITIES && StartsExecution(t, e, bypass)
    ensures t.active < LOCALITIES
  {
  }

  // ----- The size registers

  /** The host leaves the size registers of the active locality alone. */
  ghost predicate SizesLeft(es: Events, bypass: bool) {
    forall k :: 0 <= k < |es| ==> SizesLeftAt(es, k, bypass)
  }

  ghost predicate SizesLeftAt(es: Events, k: nat, bypass: bool)
    requires k < |es|
  {
    assert es[k] in es;
    var t := At(es, k, bypass);
    t.active < LOCALITIES ==>
      && es[k].host[t.active].commandSize == t.crbs[t.active].commandSize
      && es[k].host[t.active].responseSize == t.crbs[t.active].responseSize
  }

  predicate FullSizes(t: Service)
    requires WellShaped(t)
  {
    t.active < LOCALITIES ==> t.crbs[t.active].commandSize == t.crbs[t.active].responseSize == BUFFER_SIZE
  }

  lemma StepKeepsSizes(t: Service, e: Event, bypass: bool)
    requires WellShaped(t) && |e.host| == LOCALITIES && FullSizes(Before(t, e))
    ensures WellShaped(Step(t, e, bypass).0) && FullSizes(Step(t, e, bypass).0)
  {
    StepKeepsShape(t, e, bypass);
    if e.message.opcode == Start {
      hide Step;
      StartLeavesCleanRegisters(t, e, bypass);
    } else {
      hide StartStep;
    }
  }

  /** Over every run in which the host leaves them alone, the size registers of the active locality give
      the size of the data buffer, whichever localities come and go. */
  lemma {:induction false} SizesStayFull(es: Events, k: nat, bypass: bool)
    requires SizesLeft(es, bypass) && k <= |es|
    ensures FullSizes(At(es, k, bypass))
  {
    hide Step, At;
    AtUnfolds(es, k, bypass);
    if k > 0 {
      SizesStayFull(es, k - 1, bypass);
      assert SizesLeftAt(es, k - 1, bypass);
      StepKeepsSizes(At(es, k - 1, bypass), es[k - 1], bypass);
    }
  }

  /** The bytes of the buffer are those that the TPM gives, one by one, when asked with this command. */
  ghost predicate Holds(buffer: seq<bv8>, device: Transfer.Device, command: seq<bv8>) {
    |buffer| == 3968 && forall i :: 0 <= i < 3968 ==> buffer[i] == device(command, i)
  }

  /** In such a run no execution ever leaves the local buffer, whatever the TPM does; and if nothing fails on
      the way, over a CRB or a FIFO, the data buffer then holds the TPM's answer to the whole of what the
      host wrote there. */
  lemma ExecutionAnswersTheCommand(
      es: Events, k: nat, bypass: bool, i: Transfer.Interface, device: Transfer.Device, yieldError: EfiStatus)
    requires SizesLeft(es, bypass) && k < |es| && es[k] in es && yieldError != EfiSuccess
    requires StartsExecution(At(es, k, bypass), es[k], bypass)
    requires |es[k].host[At(es, k, bypass).active].buffer| == BUFFER_SIZE
    ensures var t := At(es, k, bypass);
            && SizesInside(i, es[k].host[t.active])
            && (&& es[k].backend == BackendOf(i, device, es[k].host[t.active], yieldError)
                && Transfer.NothingFails(i, BUFFER_SIZE, BUFFER_SIZE) ==>
                  && At(es, k + 1, bypass).state == COMPLETE
                  && Holds(At(es, k + 1, bypass).crbs[t.active].buffer, device, es[k].host[t.active].buffer))
  {
    hide Step, At, StartsExecution, Transfer.NothingFails, Transfer.StartOutcome, Transfer.Inside;
    SizesStayFull(es, k, bypass);
    assert SizesLeftAt(es, k, bypass);
    var t, e := At(es, k, bypass), es[k];
    ActiveIsALocality(t, e, bypass);
    var c := e.host[t.active];
    InsideAtFullSize(i);
    AtUnfolds(es, k + 1, bypass);
    if e.backend == BackendOf(i, device, c, yieldError) && Transfer.NothingFails(i, BUFFER_SIZE, BUFFER_SIZE) {
      ExecuteRunsTheTransfer(t, e, bypass, i, device, yieldError);
      Transfer.NothingFailsAnswers(i, device, c.buffer, BUFFER_SIZE, BUFFER_SIZE);
      assert c.buffer[..BUFFER_SIZE] == c.buffer && c.buffer[BUFFER_SIZE..] == [];
    }
  }

  lemma InsideAtFullSize(i: Transfer.Interface)
    ensures Transfer.Inside(i, BUFFER_SIZE, BUFFER_SIZE, BUFFER_SIZE)
  {
    Transfer.InsideWhateverTheTpmDoes(BUFFER_SIZE, BUFFER_SIZE, BUFFER_SIZE);
  }

  /** A host that writes one byte too many into the size register: the copy leaves the local buffer. */
  lemma OverrunExample(i: Transfer.Interface)
    ensures var c := FreshCrb().(commandSize := BUFFER_SIZE + 1);
            !SizesInside(i, c)
  {
    hide Transfer.CrbFinish, Transfer.FifoAccept, Transfer.FifoFinish;
  }
}
