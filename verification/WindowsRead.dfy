/** The pending-read machine of hid_read_timeout in hidapi/hid-windows.c: one overlapped read at a time is
    started, survives calls that time out, and is collected by a later call. */
module WindowsRead {
  import opened Bytes

  type Report = seq<Byte>

  /** How an overlapped read completes. */
  datatype Completion = Arrived(report: Report) | Broken

  /** The kernel's view of the handle's overlapped structure. */
  datatype Op = Idle | Pending | Done(report: Report) | Errored

  /** What ReadFile does: fail outright, or start the read, which may complete at once. */
  datatype Issue = Refused | Started(immediate: Option<Completion>)

  /** event: the auto-reset event of the structure is signalled. completed: reports the kernel has read into
      the buffer; delivered: reports whose payload a call has returned. */
  datatype State = State(readPending: bool, op: Op, event: bool, completed: seq<Report>, delivered: seq<Report>)

  const INIT := State(false, Idle, false, [], [])

  /** blocked: the call is still waiting. */
  datatype Outcome = Outcome(code: int, blocked: bool, state: State)

  /** Without a leading zero report number. */
  function Payload(r: Report): Report {
    if r != [] && r[0] == 0 then r[1..] else r
  }

  function Complete(s: State, c: Completion): State {
    match c
    case Arrived(r) => s.(op := Done(r), event := true, completed := s.completed + [r])
    case Broken => s.(op := Errored, event := true)
  }

  /** Starting a read if none is pending. */
  function Begin(s: State, issue: Issue): State {
    if s.readPending then s
    else match issue
         case Refused => s.(event := false)
         case Started(immediate) =>
           var started := s.(readPending := true, op := Pending, event := false);
           match immediate
           case None => started
           case Some(c) => Complete(started, c)
  }

  function Collect(s: State): Outcome {
    var free := s.(readPending := false, op := Idle);
    match s.op
    case Done(r) => Outcome(|Payload(r)|, false, free.(delivered := s.delivered + [r]))
    case Errored => Outcome(-1, false, free)
    case _ => Outcome(-1, true, s)
  }

  /** One call. arrival: the completion, if any, that the kernel makes while the call waits. */
  function Call(s: State, ms: int, issue: Issue, arrival: Option<Completion>): Outcome {
    if !s.readPending && issue.Refused? then Outcome(-1, false, Begin(s, issue))
    else
      var begun := Begin(s, issue);
      var waited := if begun.op.Pending? && arrival.Some? then Complete(begun, arrival.value) else begun;
      if ms >= 0 then
        if waited.event then Collect(waited.(event := false)) else Outcome(0, false, waited)
      else Collect(waited)
  }

  datatype Step = Read(ms: int, issue: Issue, arrival: Option<Completion>) | Between(completion: Completion)

  predicate Enabled(s: State, step: Step) {
    step.Between? ==> s.op.Pending?
  }

  function Apply(s: State, step: Step): State {
    match step
    case Read(ms, issue, arrival) => Call(s, ms, issue, arrival).state
    case Between(c) => Complete(s, c)
  }

  predicate Runs(s: State, steps: seq<Step>)
    decreases |steps|
  {
    steps == [] || (Enabled(s, steps[0]) && Runs(Apply(s, steps[0]), steps[1..]))
  }

  function After(s: State, steps: seq<Step>): State
    decreases |steps|
  {
    if steps == [] then s else After(Apply(s, steps[0]), steps[1..])
  }

  /** read_pending tells exactly whether the kernel has a read of ours, the event whether it is over, and the
      completed reports are the delivered ones and the one waiting to be collected. */
  predicate Inv(s: State) {
    && (s.readPending <==> s.op != Idle)
    && (s.op.Pending? ==> !s.event)
    && (s.op.Done? || s.op.Errored? ==> s.event)
    && s.completed == s.delivered + if s.op.Done? then [s.op.report] else []
  }

  lemma CompleteKeepsInv(s: State, c: Completion)
    requires Inv(s) && s.op.Pending?
    ensures Inv(Complete(s, c))
  {
  }

  lemma BeginKeepsInv(s: State, issue: Issue)
    requires Inv(s)
    ensures Inv(Begin(s, issue))
  {
    if !s.readPending && issue.Started? && issue.immediate.Some? {
      CompleteKeepsInv(s.(readPending := true, op := Pending, event := false), issue.immediate.value);
    }
  }

  /** Collecting takes the report that was waiting. The event may have been consumed before. */
  lemma CollectKeepsInv(s: State)
    requires Inv(s) && s.readPending
    ensures Inv(Collect(s).state)
    ensures !s.op.Pending? ==> Inv(Collect(s.(event := false)).state)
  {
  }

  lemma StepKeepsInv(s: State, step: Step)
    requires Inv(s) && Enabled(s, step)
    ensures Inv(Apply(s, step))
  {
    match step
    case Between(c) => CompleteKeepsInv(s, c);
    case Read(ms, issue, arrival) =>
      BeginKeepsInv(s, issue);
      var begun := Begin(s, issue);
      if s.readPending || issue.Started? {
        var waited := if begun.op.Pending? && arrival.Some? then Complete(begun, arrival.value) else begun;
        assert Inv(waited);
        CollectKeepsInv(waited);
      }
  }

  lemma {:induction false} RunKeepsInv(s: State, steps: seq<Step>)
    requires Inv(s) && Runs(s, steps)
    ensures Inv(After(s, steps))
    decreases |steps|
  {
    if steps != [] {
      StepKeepsInv(s, steps[0]);
      RunKeepsInv(Apply(s, steps[0]), steps[1..]);
    }
  }

  /** Across any calls with any timeouts: delivered are the completed reads in order, none lost, none twice;
      at most the last is still to be collected, and then the next call returns it whatever its timeout. */
  lemma ReadsInOrder(steps: seq<Step>, ms: int, issue: Issue, arrival: Option<Completion>)
    requires Runs(INIT, steps)
    ensures var s := After(INIT, steps);
            && s.delivered <= s.completed && |s.completed| <= |s.delivered| + 1
            && (s.delivered != s.completed ==>
                  var o := Call(s, ms, issue, arrival);
                  && !o.blocked && o.state.delivered == s.completed
                  && o.code == |Payload(s.completed[|s.delivered|])|)
  {
    RunKeepsInv(INIT, steps);
    var s := After(INIT, steps);
    if s.delivered != s.completed {
      assert s.op.Done?;
      assert s.completed[|s.delivered|] == s.op.report;
    }
  }

  /** A call that returns 0 before any completion leaves the read running and collects nothing. */
  lemma TimeoutLeavesRead(s: State, ms: int, issue: Issue)
    requires Inv(s) && ms >= 0 && (s.op.Pending? || (s.op.Idle? && issue == Started(None)))
    ensures var o := Call(s, ms, issue, None);
            o.code == 0 && o.state.op.Pending? && o.state.delivered == s.delivered && o.state.completed == s.completed
  {
  }

  /** How the read a call is concerned with is over by the end of the call's wait, if it is. */
  function Finished(s: State, issue: Issue, arrival: Option<Completion>): Option<Completion> {
    match s.op
    case Done(r) => Some(Arrived(r))
    case Errored => Some(Broken)
    case Pending => arrival
    case Idle =>
      match issue
      case Started(Some(c)) => Some(c)
      case Started(None) => arrival
      case Refused => None
  }

  /** The whole result of a call. It is -1 without a read if none can be started. A read that is over by the end
      of the wait, whenever it completed, is collected by this very call: its bytes without a leading zero, or
      -1 if it broke. Otherwise the read stays outstanding and the call returns 0, or goes on if it may block. */
  lemma CallMeaning(s: State, ms: int, issue: Issue, arrival: Option<Completion>)
    requires Inv(s)
    ensures var o := Call(s, ms, issue, arrival);
            if s.op.Idle? && issue.Refused? then
              && o.code == -1 && !o.blocked && o.state.op.Idle? && !o.state.readPending
              && o.state.delivered == s.delivered && o.state.completed == s.completed
            else match Finished(s, issue, arrival)
              case None =>
                && o.state.op.Pending? && o.state.readPending
                && o.state.delivered == s.delivered && o.state.completed == s.completed
                && o.blocked == (ms < 0) && (ms >= 0 ==> o.code == 0)
              case Some(Broken) =>
                && o.code == -1 && !o.blocked && o.state.op.Idle? && !o.state.readPending
                && o.state.delivered == s.delivered && o.state.completed == s.completed
              case Some(Arrived(r)) =>
                && o.code == (if r != [] && r[0] == 0 then |r| - 1 else |r|) && !o.blocked
                && o.state.op.Idle? && !o.state.readPending
                && o.state.delivered == o.state.completed == s.delivered + [r]
  {
    BeginKeepsInv(s, issue);
  }

  /** The payload is the report, only a zero in front of it is dropped. */
  lemma PayloadMeaning(r: Report)
    ensures if r != [] && r[0] == 0 then r == [0] + Payload(r) else r == Payload(r)
  {
  }

  // ---------------------------------------------------------------------------------------------
  // The code
  // ---------------------------------------------------------------------------------------------

  /** hid_device with the kernel objects it owns. */
  class WinDevice {
    const readBuf: array<Byte>
    var readPending: bool
    var op: Op
    var event: bool
    ghost var completed: seq<Report>
    ghost var delivered: seq<Report>

    /** A completed read is in the buffer, unchanged since the kernel wrote it. */
    ghost predicate Valid()
      reads this, readBuf
    {
      && Inv(Abstract())
      && (op.Done? ==> |op.report| <= readBuf.Length && readBuf[..|op.report|] == op.report)
    }

    ghost function Abstract(): State
      reads this
    {
      State(readPending, op, event, completed, delivered)
    }

    constructor (inputReportLength: nat)
      ensures Valid() && Abstract() == INIT && fresh(readBuf) && readBuf.Length == inputReportLength
    {
      readBuf := new Byte[inputReportLength];
      readPending, op, event, completed, delivered := false, Idle, false, [], [];
    }

    predicate Fits(c: Option<Completion>) {
      c.Some? && c.value.Arrived? ==> |c.value.report| <= readBuf.Length
    }

    /** The kernel finishes a read: it writes the buffer and signals the event. */
    method KernelCompletes(c: Completion)
      requires op.Pending? && Fits(Some(c))
      modifies this`op, this`event, this`completed, readBuf
      ensures Abstract() == Complete(old(Abstract()), c)
      ensures op.Done? ==> |op.report| <= readBuf.Length && readBuf[..|op.report|] == op.report
    {
      match c
      case Arrived(r) =>
        Memcpy(readBuf, r, |r|);
        assert r[..|r|] == r;
        op, event, completed := Done(r), true, completed + [r];
      case Broken =>
        op, event := Errored, true;
    }

    /** memset of the buffer, which nobody may be using. */
    method ClearReadBuf()
      requires op == Idle
      modifies readBuf
      ensures forall i :: 0 <= i < readBuf.Length ==> readBuf[i] == 0
    {
      forall i | 0 <= i < readBuf.Length {
        readBuf[i] := 0;
      }
    }

    /** ReadFile: only one overlapped read may be outstanding. */
    method ReadFile(issue: Issue) returns (res: bool, ioPending: bool)
      requires op == Idle && (issue.Started? ==> Fits(issue.immediate))
      modifies this`op, this`event, this`completed, readBuf
      ensures op.Done? ==> |op.report| <= readBuf.Length && readBuf[..|op.report|] == op.report
      ensures match issue
              case Refused => !res && !ioPending && Abstract() == old(Abstract())
              case Started(None) => !res && ioPending && Abstract() == old(Abstract()).(op := Pending)
              case Started(Some(c)) => res && Abstract() == Complete(old(Abstract()).(op := Pending), c)
    {
      match issue
      case Refused =>
        res, ioPending := false, false;
      case Started(immediate) =>
        op := Pending;
        res, ioPending := immediate.Some?, immediate.None?;
        if immediate.Some? {
          KernelCompletes(immediate.value);
        }
    }

    /** The first part of a call. */
    method StartRead(issue: Issue) returns (failed: bool)
      requires Valid() && (issue.Started? ==> Fits(issue.immediate))
      modifies this`readPending, this`op, this`event, this`completed, readBuf
      ensures Valid() && Abstract() == Begin(old(Abstract()), issue)
      ensures failed == (!old(readPending) && issue.Refused?)
    {
      failed := false;
      if !readPending {
        readPending := true;
        ClearReadBuf();
        event := false;
        var res, ioPending := ReadFile(issue);
        if !res {
          if !ioPending {
            readPending := false;
            failed := true;
          }
        }
      }
    }

    /** hid_read_timeout. length: size of the caller's buffer. The count returned is the report's, clipped only
        in what is copied. */
    method ReadTimeout(data: array<Byte>, length: nat, ms: int, issue: Issue, arrival: Option<Completion>)
      returns (code: int, blocked: bool)
      requires Valid() && length <= data.Length && data != readBuf
      requires Fits(arrival) && (issue.Started? ==> Fits(issue.immediate))
      modifies this, readBuf, data
      ensures Valid()
      ensures Outcome(code, blocked, Abstract()) == Call(old(Abstract()), ms, issue, arrival)
      ensures if delivered == old(delivered) then data[..] == old(data[..])
              else var p := Payload(delivered[|delivered| - 1]);
                   var n := Min(length, |p|);
                   data[..] == p[..n] + old(data[..])[n..]
    {
      var failed := StartRead(issue);
      if failed {
        return -1, false;
      }
      var ready := WaitRead(ms, arrival);
      if !ready {
        return 0, false;
      }
      code, blocked := CollectRead(data, length);
    }

    /** WaitForSingleObject, unless the call is to block: a signalled auto-reset event is consumed. */
    method WaitRead(ms: int, arrival: Option<Completion>) returns (ready: bool)
      requires Valid() && readPending && Fits(arrival)
      modifies this`op, this`event, this`completed, readBuf
      ensures op.Done? ==> |op.report| <= readBuf.Length && readBuf[..|op.report|] == op.report
      ensures var begun := old(Abstract());
              var waited := if begun.op.Pending? && arrival.Some? then Complete(begun, arrival.value) else begun;
              && ready == (ms < 0 || waited.event)
              && Abstract() == if ms >= 0 then waited.(event := false) else waited
    {
      if op.Pending? && arrival.Some? {
        KernelCompletes(arrival.value);
      }
      if ms >= 0 {
        ready := event;
        event := false;
      } else {
        ready := true;
      }
    }

    /** From GetOverlappedResult on. */
    method CollectRead(data: array<Byte>, length: nat) returns (code: int, blocked: bool)
      requires readPending && op != Idle && length <= data.Length && data != readBuf
      requires op.Done? ==> |op.report| <= readBuf.Length && readBuf[..|op.report|] == op.report
      modifies this`readPending, this`op, this`delivered, data
      ensures Outcome(code, blocked, Abstract()) == Collect(old(Abstract()))
      ensures if old(op).Done?
              then var p := Payload(old(op).report);
                   var n := Min(length, |p|);
                   data[..] == p[..n] + old(data[..])[n..]
              else data[..] == old(data[..])
    {
      if op.Pending? {
        return -1, true;
      }
      var res := op.Done?;
      var bytesRead: nat := if op.Done? then |op.report| else 0;
      readPending := false;
      ghost var r := if op.Done? then op.report else [];
      if res && bytesRead > 0 {
        assert r[0] == readBuf[0];
        if readBuf[0] == 0 {
          bytesRead := bytesRead - 1;
          var copyLen := if length > bytesRead then bytesRead else length;
          assert readBuf[1..|r|] == readBuf[..|r|][1..];
          Memcpy(data, readBuf[1..bytesRead + 1], copyLen);
        } else {
          var copyLen := if length > bytesRead then bytesRead else length;
          Memcpy(data, readBuf[..bytesRead], copyLen);
        }
      }
      if res {
        delivered := delivered + [r];
      }
      op := Idle;
      if !res {
        return -1, false;
      }
      return bytesRead, false;
    }
  }
}
