/** The life of the one libusb transfer of an open device: set up by read_thread, kept going by its callback,
    released by hid_close. Steps are the pieces of code between calls into libusb and pthreads; the callback
    may run at any moment after the first submission, on whichever thread handles the shared context's events. */
module Transfer {

  datatype Reader = Created | Prepared | Submitted | Looping | Leaving | Ended

  datatype Owner = Opening | Open | Closing | Joined | Released

  datatype Memory = Unallocated | Allocated | Freed

  datatype Status = Completed | TimedOut | Unknown | Cancelled | NoDevice

  /** shutdown: dev->shutdown_thread. started: the first submission succeeded. frees: calls that released
      the transfer. */
  datatype State = State(reader: Reader, owner: Owner, shutdown: bool, memory: Memory, frees: nat,
                         started: bool, inFlight: nat, inCallback: nat)

  predicate Initial(s: State) {
    && s.reader.Created? && s.owner.Opening? && s.memory.Unallocated?
    && !s.shutdown && !s.started && s.frees == s.inFlight == s.inCallback == 0
  }

  datatype Step =
    | Prepare                             // read_thread allocates and fills the transfer
    | Start(accepted: bool)               // its first submission
    | Barrier                             // read_thread and hid_open_path meet
    | LeaveLoop(fatal: bool)
    | End                                 // read_thread returns
    | Complete                            // libusb hands the transfer to read_callback
    | Return(status: Status, accepted: bool) // read_callback up to its return, with the resubmission's result
    | Close                               // hid_close sets the flag
    | Join
    | Release

  predicate Enabled(s: State, step: Step) {
    match step
    case Prepare => s.reader == Created
    case Start(_) => s.reader == Prepared
    case Barrier => s.reader == Submitted && s.owner == Opening
    case LeaveLoop(fatal) => s.reader == Looping && (fatal || s.shutdown)
    case End => s.reader == Leaving
    case Complete => s.inFlight > 0
    case Return(_, _) => s.inCallback > 0
    case Close => s.owner == Open
    case Join => s.owner == Closing && s.reader == Ended
    case Release => s.owner == Joined
  }

  function Less(n: nat): nat {
    if n > 0 then n - 1 else 0
  }

  function Apply(s: State, step: Step): State {
    match step
    case Prepare => s.(reader := Prepared, memory := Allocated)
    case Start(accepted) =>
      s.(reader := Submitted, started := accepted, inFlight := if accepted then s.inFlight + 1 else s.inFlight)
    case Barrier => s.(reader := Looping, owner := Open)
    case LeaveLoop(_) => s.(reader := Leaving)
    case End => s.(reader := Ended)
    case Complete => s.(inFlight := Less(s.inFlight), inCallback := s.inCallback + 1)
    case Return(status, accepted) =>
      var back := s.(inCallback := Less(s.inCallback));
      if status.Cancelled? || status.NoDevice? || !accepted then back.(shutdown := true)
      else back.(inFlight := s.inFlight + 1)
    case Close => s.(owner := Closing, shutdown := true)
    case Join => s.(owner := Joined)
    case Release => s.(owner := Released, memory := Freed, frees := s.frees + 1)
  }

  predicate Runs(s: State, steps: seq<Step>)
    decreases |steps|
  {
    steps == [] || (Enabled(s, steps[0]) && Runs(Apply(s, steps[0]), steps[1..]))
  }

  function After(s: State, steps: seq<Step>): State
    decreases |steps|
  {
    if steps == [] then s else After(Apply(s, steps[0]), steps[1..])
  }

  /** The transfer is with libusb or in its callback. */
  function Alive(s: State): nat {
    s.inFlight + s.inCallback
  }

  predicate PastStart(s: State) {
    s.reader != Created && s.reader != Prepared
  }

  predicate TransferInv(s: State) {
    && Alive(s) <= 1
    && (!s.started ==> Alive(s) == 0)
    && (s.started ==> PastStart(s))
    && (PastStart(s) && s.started && !s.shutdown ==> Alive(s) == 1)
  }

  predicate MemoryInv(s: State) {
    && (s.memory.Unallocated? <==> s.reader.Created?)
    && (s.memory.Freed? <==> s.owner.Released?)
    && s.frees == (if s.memory.Freed? then 1 else 0)
    && (s.owner.Opening? <==> s.reader.Created? || s.reader.Prepared? || s.reader.Submitted?)
    && (s.owner.Joined? || s.owner.Released? ==> s.reader.Ended?)
    && (s.owner.Closing? || s.owner.Joined? || s.owner.Released? ==> s.shutdown)
  }

  predicate Inv(s: State) {
    TransferInv(s) && MemoryInv(s)
  }

  lemma StepKeepsInv(s: State, step: Step)
    requires Inv(s) && Enabled(s, step)
    ensures Inv(Apply(s, step)) && (s.shutdown ==> Apply(s, step).shutdown)
  {
  }

  lemma {:induction false} RunKeepsInv(s: State, steps: seq<Step>)
    requires Inv(s) && Runs(s, steps)
    ensures Inv(After(s, steps)) && (s.shutdown ==> After(s, steps).shutdown)
    decreases |steps|
  {
    if steps != [] {
      StepKeepsInv(s, steps[0]);
      RunKeepsInv(Apply(s, steps[0]), steps[1..]);
    }
  }

  lemma {:induction false} StartedIsFixed(s: State, steps: seq<Step>)
    requires PastStart(s) && Runs(s, steps)
    ensures PastStart(After(s, steps)) && After(s, steps).started == s.started
    decreases |steps|
  {
    if steps != [] {
      StartedIsFixed(Apply(s, steps[0]), steps[1..]);
    }
  }

  lemma InitialInv(s: State)
    requires Initial(s)
    ensures Inv(s)
  {
  }

  /** At most one transfer is ever with libusb or in its callback. While the flag is clear after the first
      submission, exactly one is if that submission succeeded, and none for good if it failed. The flag is
      never cleared. */
  lemma OneTransfer(init: State, steps: seq<Step>, more: seq<Step>)
    requires Initial(init) && Runs(init, steps) && Runs(After(init, steps), more)
    ensures var s, e := After(init, steps), After(After(init, steps), more);
            && Alive(s) <= 1
            && (PastStart(s) && !s.shutdown ==> Alive(s) == if s.started then 1 else 0)
            && (s.shutdown ==> e.shutdown)
            && (PastStart(s) && !s.started ==> Alive(e) == 0)
  {
    InitialInv(init);
    RunKeepsInv(init, steps);
    RunKeepsInv(After(init, steps), more);
    if PastStart(After(init, steps)) {
      StartedIsFixed(After(init, steps), more);
    }
  }

  /** The steps that set the flag: hid_close, a cancelled transfer or a lost device, a refused resubmission. */
  predicate SetsFlag(step: Step) {
    || step.Close?
    || (step.Return? && (step.status == Cancelled || step.status == NoDevice || !step.accepted))
  }

  /** The flag is set exactly if the run has such a step: a timed-out transfer or an unknown status whose
      resubmission succeeds, and the end of the event loop, leave it alone. */
  lemma {:induction false} FlagIff(s: State, steps: seq<Step>)
    ensures After(s, steps).shutdown <==> s.shutdown || exists step <- steps :: SetsFlag(step)
    decreases |steps|
  {
    if steps != [] {
      FlagIff(Apply(s, steps[0]), steps[1..]);
      assert Apply(s, steps[0]).shutdown <==> s.shutdown || SetsFlag(steps[0]);
      assert forall step :: step in steps <==> step == steps[0] || step in steps[1..];
    }
  }

  /** hid_open_path returns with the transfer allocated; it is freed once, after read_thread has ended. */
  lemma TransferMemory(init: State, steps: seq<Step>)
    requires Initial(init) && Runs(init, steps)
    ensures var s := After(init, steps);
            && (s.owner != Opening ==> s.memory != Unallocated)
            && (s.memory == Freed ==> s.reader == Ended && s.frees == 1)
            && s.frees <= 1
            && (s.owner.Closing? || s.owner.Joined? || s.owner.Released? ==> s.shutdown)
            && (s.owner.Released? <==> s.memory == Freed)
  {
    InitialInv(init);
    RunKeepsInv(init, steps);
  }

  // ---------------------------------------------------------------------------------------------
  // A failed first submission
  // ---------------------------------------------------------------------------------------------

  /** The device was opened, but no transfer is or was ever in flight and the flag does not say so. */
  predicate Deaf(s: State) {
    PastStart(s) && !s.started && !s.shutdown && Alive(s) == 0
  }

  /** The result of the first submission is not looked at: hid_open_path returns a deaf device. */
  lemma FailedStartIsSilent(init: State)
    requires Initial(init)
    ensures var steps := [Prepare, Start(false), Barrier];
            Runs(init, steps) && After(init, steps).owner == Open && Deaf(After(init, steps))
  {
    var steps := [Prepare, Start(false), Barrier];
    var s1 := Apply(init, Prepare);
    var s2 := Apply(s1, Start(false));
    assert steps[1..] == [Start(false), Barrier] && steps[1..][1..] == [Barrier] && steps[1..][1..][1..] == [];
    assert Runs(s2, [Barrier]) && After(s2, [Barrier]) == Apply(s2, Barrier);
    assert Runs(s1, steps[1..]) && After(s1, steps[1..]) == Apply(s2, Barrier);
  }

  /** From then on nothing but hid_close sets the flag, and no report can ever arrive. */
  lemma {:induction false} DeafUntilClosed(s: State, steps: seq<Step>)
    requires Deaf(s) && Runs(s, steps) && Close !in steps
    ensures Deaf(After(s, steps))
    decreases |steps|
  {
    if steps != [] {
      assert steps[0] in steps;
      DeafUntilClosed(Apply(s, steps[0]), steps[1..]);
    }
  }

  lemma {:induction false} DeafIffRefusedFrom(s: State, steps: seq<Step>)
    requires Inv(s) && !s.shutdown && s.owner == Opening && !PastStart(s) && Runs(s, steps) && Close !in steps
    ensures PastStart(After(s, steps)) ==> (Deaf(After(s, steps)) <==> Start(true) !in steps)
    decreases |steps|
  {
    if steps != [] {
      assert steps[0] in steps;
      var next := Apply(s, steps[0]);
      StepKeepsInv(s, steps[0]);
      if PastStart(next) {
        StartedIsFixed(next, steps[1..]);
        NoSecondStart(next, steps[1..]);
        if !next.started {
          DeafUntilClosed(next, steps[1..]);
        }
      } else {
        DeafIffRefusedFrom(next, steps[1..]);
      }
    }
  }

  /** Until hid_close, a device is deaf after startup exactly if its first submission was refused. */
  lemma DeafIffRefused(init: State, steps: seq<Step>)
    requires Initial(init) && Runs(init, steps) && Close !in steps
    ensures PastStart(After(init, steps)) ==> (Deaf(After(init, steps)) <==> Start(true) !in steps)
  {
    InitialInv(init);
    DeafIffRefusedFrom(init, steps);
  }

  lemma {:induction false} NoSecondStart(s: State, steps: seq<Step>)
    requires PastStart(s) && Runs(s, steps)
    ensures Start(true) !in steps && Start(false) !in steps
    decreases |steps|
  {
    if steps != [] {
      NoSecondStart(Apply(s, steps[0]), steps[1..]);
    }
  }
}
