/** The list of input reports of an open device as the heap structure of hid_device_: nodes linked by next,
    appended at the tail by the callback, taken from the head by return_data, drained by hid_close. */
module ReportQueue {
  import opened Bytes
  import opened ReadProtocol

  // ---------------------------------------------------------------------------------------------
  // Specification of one call of hid_read_timeout
  // ---------------------------------------------------------------------------------------------

  /** What other threads may do while the caller is inside a wait and the mutex is free. */
  datatype Event = Incoming(report: Report) | TakenByOther | Stopped

  datatype WaitResult = Success | TimedOut | Failed

  /** One return of the condition wait: what happened meanwhile, and the wait's result. */
  datatype Interlude = Interlude(events: seq<Event>, result: WaitResult)

  /** The fields the mutex protects, and the flag. */
  datatype Shared = Shared(queue: seq<Report>, stop: bool)

  /** Blocked: every given wait has returned and the caller is waiting again. */
  datatype Outcome = Return(code: int, report: Option<Report>, shared: Shared) | Blocked(shared: Shared)

  function Happen(s: Shared, e: Event): Shared {
    match e
    case Incoming(r) => s.(queue := Push(s.queue, r))
    case TakenByOther => if s.queue == [] then s else s.(queue := s.queue[1..])
    case Stopped => s.(stop := true)
  }

  function During(s: Shared, events: seq<Event>): Shared {
    if events == [] then s else Happen(During(s, events[..|events| - 1]), events[|events| - 1])
  }

  /** A blocking libusb read ignores the result of its wait; every other read gives up on a non-zero one. */
  function WaitAction(p: Platform, ms: int, result: WaitResult, s: Shared): Action {
    if result == Success || (p == Libusb && ms == -1) then ResumeAction(p, s.queue, s.stop)
    else if result == TimedOut && ms > 0 then Code(0)
    else Code(-1)
  }

  /** length is the size of the caller's buffer. */
  function Finish(s: Shared, action: Action, length: nat): Outcome {
    match action
    case Code(c) => Return(c, None, s)
    case Wait => Blocked(s)
    case Take =>
      if s.queue == [] then Blocked(s)
      else Return(Min(length, |s.queue[0]|), Some(s.queue[0]), s.(queue := s.queue[1..]))
  }

  function WaitLoop(p: Platform, s: Shared, length: nat, ms: int, waits: seq<Interlude>): Outcome
    decreases |waits|
  {
    if waits == [] then Blocked(s)
    else
      var s' := During(s, waits[0].events);
      match WaitAction(p, ms, waits[0].result, s')
      case Wait => WaitLoop(p, s', length, ms, waits[1..])
      case action => Finish(s', action, length)
  }

  function ReadCall(p: Platform, s: Shared, length: nat, ms: int, waits: seq<Interlude>): Outcome {
    match EnterAction(s.queue, s.stop, ms)
    case Wait => WaitLoop(p, s, length, ms, waits)
    case action => Finish(s, action, length)
  }

  // ---------------------------------------------------------------------------------------------
  // What the specification promises
  // ---------------------------------------------------------------------------------------------

  /** Results a condition wait can give a caller that passed this timeout. */
  predicate Plausible(ms: int, waits: seq<Interlude>) {
    forall w <- waits :: w.result == Success || (w.result == TimedOut && ms > 0)
  }

  predicate NeverStopped(waits: seq<Interlude>) {
    forall w <- waits :: Stopped !in w.events
  }

  lemma {:induction false} StopOnlySet(s: Shared, events: seq<Event>)
    ensures During(s, events).stop <==> s.stop || Stopped in events
  {
    if events != [] {
      StopOnlySet(s, events[..|events| - 1]);
      assert events == events[..|events| - 1] + [events[|events| - 1]];
    }
  }

  lemma {:induction false} LoopCodes(p: Platform, s: Shared, length: nat, ms: int, waits: seq<Interlude>)
    requires Plausible(ms, waits)
    ensures match WaitLoop(p, s, length, ms, waits)
            case Blocked(e) => waits == [] || (e.queue == [] && !e.stop)
            case Return(c, report, e) =>
              report == None ==> (c == -1 && e.stop && (p == Libusb ==> e.queue == []))
                                 || (c == 0 && exists w <- waits :: w.result == TimedOut)
    decreases |waits|
  {
    if waits != [] {
      assert waits[0] in waits && forall w <- waits[1..] :: w in waits;
      LoopCodes(p, During(s, waits[0].events), length, ms, waits[1..]);
    }
  }

  /** What a call's result means. -1 means stopped, and on libusb drained too. 0 without a report means a poll
      of an empty, running device or a wait that timed out, so a blocking call never returns it. A call still
      waits only on an empty, running device, and a poll never waits. */
  lemma ReadCodes(p: Platform, s: Shared, length: nat, ms: int, waits: seq<Interlude>)
    requires Plausible(ms, waits)
    ensures match ReadCall(p, s, length, ms, waits)
            case Blocked(e) => e.queue == [] && !e.stop && (ms == -1 || ms > 0)
            case Return(c, report, e) =>
              && (report == None ==> (c == -1 && e.stop && (p == Libusb ==> e.queue == []))
                                     || (c == 0 && exists w <- waits :: w.result == TimedOut)
                                     || (c == 0 && ms != -1 && e.queue == [] && !e.stop))
              && (report.Some? ==> c == Min(length, |report.value|))
              && (s.queue != [] ==> report == Some(s.queue[0]) && e == s.(queue := s.queue[1..]))
  {
    LoopCodes(p, s, length, ms, waits);
    if EnterAction(s.queue, s.stop, ms) == Wait {
      LoopReports(p, s, length, ms, waits);
    }
  }

  lemma {:induction false} LoopReports(p: Platform, s: Shared, length: nat, ms: int, waits: seq<Interlude>)
    ensures match WaitLoop(p, s, length, ms, waits)
            case Blocked(_) => true
            case Return(c, report, _) => report.Some? ==> c == Min(length, |report.value|)
    decreases |waits|
  {
    if waits != [] {
      LoopReports(p, During(s, waits[0].events), length, ms, waits[1..]);
    }
  }

  /** What the k-th return of the wait leads to find. */
  function Found(s: Shared, waits: seq<Interlude>, k: nat): Shared
    requires k < |waits|
    decreases k
  {
    var e := During(s, waits[0].events); if k == 0 then e else Found(e, waits[1..], k - 1)
  }

  /** Nothing to read and nothing to report: a wait goes on. */
  predicate Idle(s: Shared) {
    s.queue == [] && !s.stop
  }

  /** The oldest report is handed over, as far as the caller's buffer reaches, and leaves the queue. */
  function HandOver(s: Shared, length: nat): Outcome
    requires s.queue != []
  {
    Return(Min(length, |s.queue[0]|), Some(s.queue[0]), s.(queue := s.queue[1..]))
  }

  /** A return of the wait that makes the caller look at queue and flag. A blocking libusb read looks always. */
  predicate Looks(p: Platform, ms: int, w: Interlude) {
    w.result == Success || (p == Libusb && ms == -1)
  }

  /** The k-th return of the wait is the first that does not send the caller back to wait. */
  predicate EndsAt(p: Platform, s: Shared, ms: int, waits: seq<Interlude>, k: nat) {
    && k < |waits|
    && !(Looks(p, ms, waits[k]) && Idle(Found(s, waits, k)))
    && forall j :: 0 <= j < k ==> Looks(p, ms, waits[j]) && Idle(Found(s, waits, j))
  }

  lemma FoundLater(s: Shared, waits: seq<Interlude>)
    requires waits != []
    ensures var e, rest := During(s, waits[0].events), waits[1..];
            forall k :: 0 <= k < |rest| ==> rest[k] == waits[k + 1] && Found(e, rest, k) == Found(s, waits, k + 1)
  {
  }

  lemma {:induction false} LoopReturns(p: Platform, s: Shared, length: nat, ms: int, waits: seq<Interlude>, k: nat)
    requires EndsAt(p, s, ms, waits, k)
    ensures var o, e := WaitLoop(p, s, length, ms, waits), Found(s, waits, k);
            if !Looks(p, ms, waits[k])
            then o == Return(if waits[k].result == TimedOut && ms > 0 then 0 else -1, None, e)
            else if e.queue != [] && (p == Libusb || !e.stop) then o == HandOver(e, length)
            else o == Return(-1, None, e)
    decreases k
  {
    if k > 0 {
      FoundLater(s, waits);
      assert Looks(p, ms, waits[0]) && Idle(Found(s, waits, 0));
      var e, rest := During(s, waits[0].events), waits[1..];
      assert forall j :: 0 <= j < k - 1 ==> Looks(p, ms, rest[j]) && Idle(Found(e, rest, j));
      LoopReturns(p, e, length, ms, rest, k - 1);
    }
  }

  lemma {:induction false} LoopGoesOn(p: Platform, s: Shared, length: nat, ms: int, waits: seq<Interlude>)
    requires forall j :: 0 <= j < |waits| ==> Looks(p, ms, waits[j]) && Idle(Found(s, waits, j))
    ensures WaitLoop(p, s, length, ms, waits)
            == Blocked(if waits == [] then s else Found(s, waits, |waits| - 1))
    decreases |waits|
  {
    if waits != [] {
      FoundLater(s, waits);
      assert Looks(p, ms, waits[0]) && Idle(Found(s, waits, 0));
      LoopGoesOn(p, During(s, waits[0].events), length, ms, waits[1..]);
    }
  }

  /** The whole result of a call, for any waits. At once: the oldest report, -1 if stopped, 0 for a poll.
      Otherwise at the first return of the wait after which the caller does not wait again: 0 if that wait timed
      out, -1 if it failed, the oldest report then queued, -1 if stopped. macOS looks at the flags before the
      queue. Without such a return the call is still waiting. */
  lemma ReadReturns(p: Platform, s: Shared, length: nat, ms: int, waits: seq<Interlude>)
    ensures s.queue != [] ==> ReadCall(p, s, length, ms, waits) == HandOver(s, length)
    ensures s.queue == [] && s.stop ==> ReadCall(p, s, length, ms, waits) == Return(-1, None, s)
    ensures Idle(s) && ms != -1 && ms <= 0 ==> ReadCall(p, s, length, ms, waits) == Return(0, None, s)
    ensures Idle(s) && (ms == -1 || ms > 0) ==>
              forall k: nat | EndsAt(p, s, ms, waits, k) ::
                var o, e := ReadCall(p, s, length, ms, waits), Found(s, waits, k);
                if !Looks(p, ms, waits[k])
                then o == Return(if waits[k].result == TimedOut && ms > 0 then 0 else -1, None, e)
                else if e.queue != [] && (p == Libusb || !e.stop) then o == HandOver(e, length)
                else o == Return(-1, None, e)
    ensures Idle(s) && (ms == -1 || ms > 0) && (forall k: nat :: !EndsAt(p, s, ms, waits, k)) ==>
              ReadCall(p, s, length, ms, waits) == Blocked(if waits == [] then s else Found(s, waits, |waits| - 1))
  {
    forall k: nat | EndsAt(p, s, ms, waits, k)
      ensures var o, e := WaitLoop(p, s, length, ms, waits), Found(s, waits, k);
              if !Looks(p, ms, waits[k])
              then o == Return(if waits[k].result == TimedOut && ms > 0 then 0 else -1, None, e)
              else if e.queue != [] && (p == Libusb || !e.stop) then o == HandOver(e, length)
              else o == Return(-1, None, e)
    {
      LoopReturns(p, s, length, ms, waits, k);
    }
    if forall k: nat :: !EndsAt(p, s, ms, waits, k) {
      NoEnd(p, s, ms, waits, |waits|);
      LoopGoesOn(p, s, length, ms, waits);
    }
  }

  /** Without a first ending return there is none. */
  lemma {:induction false} NoEnd(p: Platform, s: Shared, ms: int, waits: seq<Interlude>, n: nat)
    requires n <= |waits| && forall k: nat :: !EndsAt(p, s, ms, waits, k)
    ensures forall j :: 0 <= j < n ==> Looks(p, ms, waits[j]) && Idle(Found(s, waits, j))
  {
    if n > 0 {
      NoEnd(p, s, ms, waits, n - 1);
      assert !EndsAt(p, s, ms, waits, n - 1);
    }
  }

  lemma {:induction false} LoopBlocksIff(p: Platform, s: Shared, length: nat, ms: int, waits: seq<Interlude>)
    requires Plausible(ms, waits)
    ensures WaitLoop(p, s, length, ms, waits).Blocked? <==>
            forall k :: 0 <= k < |waits| ==> waits[k].result == Success && Idle(Found(s, waits, k))
    decreases |waits|
  {
    if waits != [] {
      var e, rest := During(s, waits[0].events), waits[1..];
      LoopBlocksIff(p, e, length, ms, rest);
      assert Found(s, waits, 0) == e;
      assert forall k :: 0 < k < |waits| ==> waits[k] == rest[k - 1] && Found(s, waits, k) == Found(e, rest, k - 1);
      assert forall k :: 0 <= k < |rest| ==> rest[k] == waits[k + 1] && Found(e, rest, k) == Found(s, waits, k + 1);
    }
  }

  /** A call goes on waiting exactly while it was allowed to wait and every return of the wait so far was a
      wakeup to an empty, running device: a blocking read of a silent device never returns. */
  lemma BlocksIff(p: Platform, s: Shared, length: nat, ms: int, waits: seq<Interlude>)
    requires Plausible(ms, waits)
    ensures ReadCall(p, s, length, ms, waits).Blocked? <==>
            && Idle(s) && (ms == -1 || ms > 0)
            && forall k :: 0 <= k < |waits| ==> waits[k].result == Success && Idle(Found(s, waits, k))
  {
    LoopBlocksIff(p, s, length, ms, waits);
  }

  /** The k-th wakeup finds a stopped device and a report, those before it an empty, running device, and none
      of these waits has timed out. */
  predicate DivergesAt(s: Shared, waits: seq<Interlude>, k: nat)
    decreases k
  {
    && k < |waits| && waits[0].result == Success
    && var e := During(s, waits[0].events);
       if k == 0 then e.stop && e.queue != [] else Idle(e) && DivergesAt(e, waits[1..], k - 1)
  }

  lemma {:induction false} LoopsDiffer(s: Shared, length: nat, ms: int, waits: seq<Interlude>, k: nat)
    requires DivergesAt(s, waits, k)
    ensures var e := Found(s, waits, k);
            && e.queue != []
            && WaitLoop(MacOS, s, length, ms, waits) == Return(-1, None, e)
            && WaitLoop(Libusb, s, length, ms, waits)
               == HandOver(e, length)
    decreases k
  {
    if k > 0 {
      LoopsDiffer(During(s, waits[0].events), length, ms, waits[1..], k - 1);
    }
  }

  lemma {:induction false} LoopsAgree(s: Shared, length: nat, ms: int, waits: seq<Interlude>)
    requires Plausible(ms, waits) && forall k: nat :: !DivergesAt(s, waits, k)
    ensures WaitLoop(MacOS, s, length, ms, waits) == WaitLoop(Libusb, s, length, ms, waits)
    decreases |waits|
  {
    if waits != [] {
      var e := During(s, waits[0].events);
      assert !DivergesAt(s, waits, 0);
      if waits[0].result == Success && Idle(e) {
        forall k: nat ensures !DivergesAt(e, waits[1..], k) {
          assert !DivergesAt(s, waits, k + 1);
        }
        LoopsAgree(e, length, ms, waits[1..]);
      }
    }
  }

  /** The two implementations differ exactly on a waiting call that wakes up to a stopped device with a report
      queued, after any number of wakeups to an empty, running one. libusb then returns the report, macOS
      returns -1 and leaves it. */
  lemma PlatformsDifferOnStoppedData(s: Shared, length: nat, ms: int, waits: seq<Interlude>)
    requires Plausible(ms, waits)
    ensures ReadCall(MacOS, s, length, ms, waits) != ReadCall(Libusb, s, length, ms, waits) <==>
            EnterAction(s.queue, s.stop, ms) == Wait && exists k: nat :: DivergesAt(s, waits, k)
    ensures forall k: nat | EnterAction(s.queue, s.stop, ms) == Wait && DivergesAt(s, waits, k) ::
              var e := Found(s, waits, k);
              && e.queue != []
              && ReadCall(MacOS, s, length, ms, waits) == Return(-1, None, e)
              && ReadCall(Libusb, s, length, ms, waits)
                 == HandOver(e, length)
  {
    forall k: nat | DivergesAt(s, waits, k)
      ensures var e := Found(s, waits, k);
              && e.queue != []
              && WaitLoop(MacOS, s, length, ms, waits) == Return(-1, None, e)
              && WaitLoop(Libusb, s, length, ms, waits)
                 == HandOver(e, length)
    {
      LoopsDiffer(s, length, ms, waits, k);
    }
    if k: nat :| DivergesAt(s, waits, k) {
      assert WaitLoop(MacOS, s, length, ms, waits).report != WaitLoop(Libusb, s, length, ms, waits).report;
      assert exists k: nat :: DivergesAt(s, waits, k);
    } else {
      LoopsAgree(s, length, ms, waits);
    }
  }

  lemma {:induction false} StoppedFirst(s: Shared, waits: seq<Interlude>, k: nat)
    requires !s.stop && NeverStopped(waits)
    ensures !DivergesAt(s, waits, k)
    decreases k
  {
    if waits != [] {
      StopOnlySet(s, waits[0].events);
      if k > 0 {
        StoppedFirst(During(s, waits[0].events), waits[1..], k - 1);
      }
    }
  }

  /** As long as nobody stops the device the two implementations return the same. */
  lemma PlatformsAgree(s: Shared, length: nat, ms: int, waits: seq<Interlude>)
    requires Plausible(ms, waits) && NeverStopped(waits)
    ensures ReadCall(MacOS, s, length, ms, waits) == ReadCall(Libusb, s, length, ms, waits)
  {
    PlatformsDifferOnStoppedData(s, length, ms, waits);
    if !s.stop {
      forall k: nat ensures !DivergesAt(s, waits, k) {
        StoppedFirst(s, waits, k);
      }
    }
  }

  // ---------------------------------------------------------------------------------------------
  // The heap structure
  // ---------------------------------------------------------------------------------------------

  /** struct input_report. The copy of the transfer's bytes is never written again.
      order numbers the allocations, so that two nodes at different places are different nodes. */
  class InputReport {
    const data: seq<Byte>
    ghost const order: nat
    var next: InputReport?

    constructor (data: seq<Byte>, ghost order: nat)
      ensures this.data == data && this.order == order && next == null
    {
      this.data, this.order := data, order;
      next := null;
    }
  }

  /** The k-th node, or null past the end. */
  function NodeAt(s: seq<InputReport>, k: nat): InputReport? {
    if k < |s| then s[k] else null
  }

  ghost predicate Numbered(s: seq<InputReport>, repr: set<InputReport>) {
    forall i :: 0 <= i < |s| ==> s[i] in repr && s[i].order == i
  }

  /** From the k-th node on, each node is linked to the following one. */
  ghost predicate Chained(s: seq<InputReport>, k: nat)
    reads s
  {
    forall i {:trigger s[i].next} :: k <= i < |s| ==> s[i].next == NodeAt(s, i + 1)
  }

  ghost predicate Payloads(s: seq<InputReport>, k: nat, contents: seq<Report>) {
    k + |contents| == |s| && forall j :: 0 <= j < |contents| ==> contents[j] == s[k + j].data
  }

  lemma PayloadsTail(s: seq<InputReport>, k: nat, contents: seq<Report>)
    requires Payloads(s, k, contents) && k < |s|
    ensures contents[0] == s[k].data && Payloads(s, k + 1, contents[1..])
    ensures s[..k + 1] == s[..k] + [s[k]]
  {
  }

  lemma PayloadsAppend(s: seq<InputReport>, k: nat, contents: seq<Report>, n: InputReport)
    requires Payloads(s, k, contents)
    ensures Payloads(s + [n], k, contents + [n.data])
    ensures (s + [n])[..k] == s[..k]
  {
  }

  lemma NumberedAppend(s: seq<InputReport>, repr: set<InputReport>, n: InputReport)
    requires Numbered(s, repr) && n.order == |s|
    ensures Numbered(s + [n], repr + {n})
  {
  }

  lemma LastDiffers(s: seq<InputReport>, repr: set<InputReport>)
    requires Numbered(s, repr)
    ensures forall i :: 0 <= i < |s| - 1 ==> s[i] != s[|s| - 1]
  {
  }

  /** A new last node behind the old one completes the chain. */
  lemma ChainedAppend(s: seq<InputReport>, k: nat, n: InputReport)
    requires k <= |s| && (forall i :: k <= i < |s| - 1 ==> s[i].next == s[i + 1])
    requires (k < |s| ==> s[|s| - 1].next == n) && n.next == null
    ensures Chained(s + [n], k)
  {
  }

  /** tail->next = rpt */
  method SetNext(tail: InputReport, rpt: InputReport, ghost s: seq<InputReport>, ghost k: nat)
    requires k < |s| && tail == s[|s| - 1] && Chained(s, k) && rpt.next == null && rpt != tail
    requires forall i :: 0 <= i < |s| - 1 ==> s[i] != s[|s| - 1]
    modifies tail`next
    ensures Chained(s + [rpt], k)
  {
    assert forall i :: k <= i < |s| - 1 ==> s[i].next == s[i + 1];
    tail.next := rpt;
    assert forall i :: k <= i < |s| - 1 ==> s[i].next == s[i + 1];
    ChainedAppend(s, k, rpt);
  }

  class HidDevice {
    const platform: Platform
    var inputReports: InputReport?
    var stop: bool

    /** The queued reports, oldest first; every node allocated, in order; every node passed to free(), in order;
        the nodes as a set. */
    ghost var contents: seq<Report>
    ghost var created: seq<InputReport>
    ghost var freed: seq<InputReport>
    ghost var repr: set<InputReport>

    /** Nodes are freed once each and in order of allocation, and the list is the acyclic chain of the others,
        which hold the queued reports. */
    ghost predicate Valid()
      reads this, repr
    {
      && Numbered(created, repr)
      && |freed| <= |created| && freed == created[..|freed|]
      && inputReports == NodeAt(created, |freed|)
      && Chained(created, |freed|)
      && Payloads(created, |freed|, contents)
    }

    /** What was allocated stays recorded, and what was freed stays freed. */
    twostate predicate OnlyForward()
      reads this
    {
      old(created) <= created && old(freed) <= freed
    }

    ghost function Abstract(): Shared
      reads this
    {
      Shared(contents, stop)
    }

    constructor (platform: Platform)
      ensures this.platform == platform && Valid() && contents == [] && !stop
      ensures created == [] && repr == {}
    {
      this.platform := platform;
      inputReports, stop := null, false;
      contents, created, freed, repr := [], [], [], {};
    }

    /** return_data: copies the oldest report into the caller's buffer, as far as it fits, and frees it. */
    method ReturnData(data: array?<Byte>, length: nat) returns (len: nat)
      requires Valid() && inputReports != null
      requires if data == null then length == 0 else length <= data.Length
      modifies this`inputReports, this`contents, this`freed, data
      ensures Valid() && freed == old(freed) + [old(inputReports)]
      ensures old(contents) != [] && contents == old(contents)[1..]
      ensures len == Min(length, |old(contents)[0]|)
      ensures data != null ==> data[..] == old(contents)[0][..len] + old(data[..])[len..]
    {
      var rpt: InputReport := inputReports;
      len := if length < |rpt.data| then length else |rpt.data|;
      if data != null {
        Memcpy(data, rpt.data, len);
      }
      Unlink();
    }

    /** Takes the head off the list and frees it. */
    method Unlink()
      requires Valid() && inputReports != null
      modifies this`inputReports, this`contents, this`freed
      ensures Valid() && freed == old(freed) + [old(inputReports)]
      ensures old(contents) != [] && old(inputReports).data == old(contents)[0] && contents == old(contents)[1..]
    {
      PayloadsTail(created, |freed|, contents);
      var rpt: InputReport := inputReports;
      inputReports := rpt.next;
      contents, freed := contents[1..], freed + [rpt];
    }

    /** Walks to the tail of a nonempty list; hops: the steps made, one less than the reports queued. */
    method WalkToTail() returns (cur: InputReport, hops: int)
      requires Valid() && inputReports != null
      ensures created != [] && cur == created[|created| - 1] && hops == |contents| - 1
    {
      cur := inputReports;
      hops := 0;
      while cur.next != null
        invariant 0 <= hops < |created| - |freed| && cur == created[|freed| + hops]
        decreases |created| - hops
      {
        cur := cur.next;
        hops := hops + 1;
      }
    }

    /** Links a new node at the root of an empty list. */
    method LinkRoot(rpt: InputReport)
      requires Valid() && contents == []
      requires rpt !in repr && rpt.order == |created| && rpt.next == null
      modifies this`inputReports, this`contents, this`created, this`repr
      ensures Valid() && contents == [rpt.data]
      ensures created == old(created) + [rpt] && repr == old(repr) + {rpt}
    {
      PayloadsAppend(created, |freed|, contents, rpt);
      NumberedAppend(created, repr, rpt);
      ChainedAppend(created, |freed|, rpt);
      inputReports := rpt;
      contents, created, repr := contents + [rpt.data], created + [rpt], repr + {rpt};
    }

    /** Links a new node behind the tail. */
    method LinkTail(tail: InputReport, rpt: InputReport)
      requires Valid() && contents != [] && tail == created[|created| - 1]
      requires rpt !in repr && rpt.order == |created| && rpt.next == null
      modifies this`contents, this`created, this`repr, tail`next
      ensures Valid() && contents == old(contents) + [rpt.data]
      ensures created == old(created) + [rpt] && repr == old(repr) + {rpt}
    {
      PayloadsAppend(created, |freed|, contents, rpt);
      NumberedAppend(created, repr, rpt);
      LastDiffers(created, repr);
      SetNext(tail, rpt, created, |freed|);
      contents, created, repr := contents + [rpt.data], created + [rpt], repr + {rpt};
    }

    /** The part of the callback under the mutex: attach the report, and pop the head when the tail walk made
        more than 30 hops. signal: the condition is signalled. */
    method Enqueue(rpt: InputReport) returns (signal: bool)
      requires Valid() && rpt !in repr && rpt.order == |created| && rpt.next == null
      modifies this`inputReports, this`contents, this`created, this`freed, this`repr, repr
      ensures Valid() && contents == Push(old(contents), rpt.data)
      ensures signal == Signals(platform, old(contents))
      ensures created == old(created) + [rpt] && repr == old(repr) + {rpt}
      ensures old(freed) <= freed && |freed| == |old(freed)| + if Evicts(old(contents)) then 1 else 0
    {
      signal := platform == MacOS;
      if inputReports == null {
        LinkRoot(rpt);
        signal := true;
      } else {
        var tail, hops := WalkToTail();
        LinkTail(tail, rpt);
        if hops > 30 {
          var _ := ReturnData(null, 0);
        }
      }
    }

    /** The callback for a received report, with its allocation. */
    method ReceiveReport(buffer: seq<Byte>) returns (signal: bool)
      requires Valid()
      modifies this`inputReports, this`contents, this`created, this`freed, this`repr, repr
      ensures Valid() && contents == Push(old(contents), buffer)
      ensures signal == Signals(platform, old(contents))
      ensures fresh(repr - old(repr)) && OnlyForward() && |created| == |old(created)| + 1
      ensures |freed| == |old(freed)| + if Evicts(old(contents)) then 1 else 0
    {
      var rpt := new InputReport(buffer, |created|);
      signal := Enqueue(rpt);
    }

    method OtherThread(e: Event)
      requires Valid()
      modifies this, repr
      ensures Valid() && Abstract() == Happen(old(Abstract()), e)
      ensures fresh(repr - old(repr)) && OnlyForward()
    {
      match e
      case Incoming(r) =>
        var _ := ReceiveReport(r);
      case TakenByOther =>
        if inputReports != null {
          var _ := ReturnData(null, 0);
        }
      case Stopped =>
        stop := true;
    }

    /** The condition wait: the mutex is released, other threads act, the mutex is held again. */
    method CondWait(events: seq<Event>)
      requires Valid()
      modifies this, repr
      ensures Valid() && Abstract() == During(old(Abstract()), events)
      ensures fresh(repr - old(repr)) && OnlyForward()
    {
      var i := 0;
      while i < |events|
        invariant 0 <= i <= |events| && Valid()
        invariant Abstract() == During(old(Abstract()), events[..i])
        invariant fresh(repr - old(repr)) && OnlyForward()
      {
        OtherThread(events[i]);
        assert events[..i + 1][..i] == events[..i];
        i := i + 1;
      }
      assert events[..i] == events;
    }

    ghost predicate Returned(outcome: Outcome, bytesRead: int, blocked: bool, buffer: seq<Byte>, was: seq<Byte>)
      reads this
    {
      && outcome.shared == Abstract()
      && (blocked <==> outcome.Blocked?)
      && (outcome.Return? ==> bytesRead == outcome.code)
      && (if outcome.Return? && outcome.report.Some?
          then 0 <= bytesRead <= |outcome.report.value| && bytesRead <= |was|
               && buffer == outcome.report.value[..bytesRead] + was[bytesRead..]
          else buffer == was)
    }

    /** The loop of a blocking read: the result of the wait is ignored, only queue and flag count.
        action Wait: the caller is still in the loop. */
    method BlockLibusb(ghost length: nat, waits: seq<Interlude>) returns (action: Action)
      requires Valid() && contents == [] && !stop
      modifies this, repr
      ensures Valid() && fresh(repr - old(repr)) && OnlyForward()
      ensures WaitLoop(Libusb, old(Abstract()), length, -1, waits) == Finish(Abstract(), action, length)
      ensures action == Take ==> contents != []
    {
      var k := 0;
      while inputReports == null && !stop
        invariant 0 <= k <= |waits| && Valid()
        invariant fresh(repr - old(repr)) && OnlyForward()
        invariant WaitLoop(Libusb, old(Abstract()), length, -1, waits) ==
                  match ResumeAction(Libusb, contents, stop)
                  case Wait => WaitLoop(Libusb, Abstract(), length, -1, waits[k..])
                  case action => Finish(Abstract(), action, length)
        decreases |waits| - k
      {
        if k == |waits| {
          return Wait;
        }
        CondWait(waits[k].events);
        assert waits[k..][1..] == waits[k + 1..];
        k := k + 1;
      }
      return if inputReports != null then Take else Code(-1);
    }

    /** The loop of a read with a deadline. */
    method TimedLibusb(ghost length: nat, ms: int, waits: seq<Interlude>) returns (action: Action)
      requires Valid() && contents == [] && !stop && ms > 0
      modifies this, repr
      ensures Valid() && fresh(repr - old(repr)) && OnlyForward()
      ensures WaitLoop(Libusb, old(Abstract()), length, ms, waits) == Finish(Abstract(), action, length)
      ensures action == Take ==> contents != []
    {
      var k := 0;
      while inputReports == null && !stop
        invariant 0 <= k <= |waits| && Valid() && contents == []
        invariant fresh(repr - old(repr)) && OnlyForward()
        invariant WaitLoop(Libusb, old(Abstract()), length, ms, waits) ==
                  if stop then Return(-1, None, Abstract())
                  else WaitLoop(Libusb, Abstract(), length, ms, waits[k..])
        decreases |waits| - k
      {
        if k == |waits| {
          return Wait;
        }
        CondWait(waits[k].events);
        assert waits[k..][1..] == waits[k + 1..];
        if waits[k].result == Success {
          if inputReports != null {
            return Take;
          }
        } else if waits[k].result == TimedOut {
          return Code(0);
        } else {
          return Code(-1);
        }
        k := k + 1;
      }
      return Code(-1);
    }

    method AwaitLibusb(ghost length: nat, ms: int, waits: seq<Interlude>) returns (action: Action)
      requires Valid() && contents == [] && !stop && (ms == -1 || ms > 0)
      modifies this, repr
      ensures Valid() && fresh(repr - old(repr)) && OnlyForward()
      ensures WaitLoop(Libusb, old(Abstract()), length, ms, waits) == Finish(Abstract(), action, length)
      ensures action == Take ==> contents != []
    {
      if ms == -1 {
        action := BlockLibusb(length, waits);
      } else {
        action := TimedLibusb(length, ms, waits);
      }
    }

    /** The end of a call: the report is handed over, or the code is. */
    method Conclude(action: Action, data: array<Byte>, length: nat) returns (bytesRead: int, blocked: bool)
      requires Valid() && length <= data.Length && (action == Take ==> inputReports != null)
      modifies this`inputReports, this`contents, this`freed, data
      ensures Valid() && old(freed) <= freed
      ensures Returned(Finish(old(Abstract()), action, length), bytesRead, blocked, data[..], old(data[..]))
    {
      match action
      case Take =>
        bytesRead := ReturnData(data, length);
        blocked := false;
      case Code(c) =>
        bytesRead, blocked := c, false;
      case Wait =>
        bytesRead, blocked := -1, true;
    }

    /** hid_read_timeout of hidapi/hid-libusb.c. waits: how the successive waits end; blocked: none is left. */
    method ReadTimeoutLibusb(data: array<Byte>, length: nat, ms: int, waits: seq<Interlude>)
      returns (bytesRead: int, blocked: bool)
      requires Valid() && platform == Libusb && length <= data.Length
      modifies this, repr, data
      ensures Valid() && fresh(repr - old(repr)) && OnlyForward()
      ensures Returned(ReadCall(Libusb, old(Abstract()), length, ms, waits),
                       bytesRead, blocked, data[..], old(data[..]))
    {
      var action := Code(0);
      if inputReports != null {
        action := Take;
      } else if stop {
        action := Code(-1);
      } else if ms == -1 || ms > 0 {
        action := AwaitLibusb(length, ms, waits);
      }
      bytesRead, blocked := Conclude(action, data, length);
    }

    /** cond_wait and cond_timedwait of hidapi/hid-macosx.c: 0 when there is data, the wait's non-zero result,
        or -1 when woken on a stopped device. */
    method WaitForData(ghost length: nat, ms: int, waits: seq<Interlude>) returns (res: WaitResult, blocked: bool)
      requires Valid() && contents == [] && !stop && (ms == -1 || ms > 0)
      modifies this, repr
      ensures Valid()
      ensures fresh(repr - old(repr)) && OnlyForward()
      ensures !blocked && res == Success ==> inputReports != null
      ensures WaitLoop(MacOS, old(Abstract()), length, ms, waits) ==
              if blocked then Blocked(Abstract())
              else if res == Success then Finish(Abstract(), Take, length)
              else Return(if res == TimedOut && ms > 0 then 0 else -1, None, Abstract())
    {
      var k := 0;
      while inputReports == null
        invariant 0 <= k <= |waits| && Valid()
        invariant fresh(repr - old(repr)) && OnlyForward()
        invariant WaitLoop(MacOS, old(Abstract()), length, ms, waits) ==
                  if inputReports == null then WaitLoop(MacOS, Abstract(), length, ms, waits[k..])
                  else Finish(Abstract(), Take, length)
        decreases |waits| - k
      {
        if k == |waits| {
          return Success, true;
        }
        CondWait(waits[k].events);
        assert waits[k..][1..] == waits[k + 1..];
        if waits[k].result != Success {
          return waits[k].result, false;
        }
        if stop {
          return Failed, false;
        }
        k := k + 1;
      }
      return Success, false;
    }

    method AwaitMacOS(ghost length: nat, ms: int, waits: seq<Interlude>) returns (action: Action)
      requires Valid() && contents == [] && !stop && (ms == -1 || ms > 0)
      modifies this, repr
      ensures Valid() && fresh(repr - old(repr)) && OnlyForward()
      ensures WaitLoop(MacOS, old(Abstract()), length, ms, waits) == Finish(Abstract(), action, length)
      ensures action == Take ==> contents != []
    {
      var res, blocked := WaitForData(length, ms, waits);
      if blocked {
        return Wait;
      }
      return if res == Success then Take else if res == TimedOut && ms > 0 then Code(0) else Code(-1);
    }

    /** hid_read_timeout of hidapi/hid-macosx.c. */
    method ReadTimeoutMacOS(data: array<Byte>, length: nat, ms: int, waits: seq<Interlude>)
      returns (bytesRead: int, blocked: bool)
      requires Valid() && platform == MacOS && length <= data.Length
      modifies this, repr, data
      ensures Valid() && fresh(repr - old(repr)) && OnlyForward()
      ensures Returned(ReadCall(MacOS, old(Abstract()), length, ms, waits),
                       bytesRead, blocked, data[..], old(data[..]))
    {
      var action := Code(0);
      if inputReports != null {
        action := Take;
      } else if stop {
        action := Code(-1);
      } else if ms == -1 || ms > 0 {
        action := AwaitMacOS(length, ms, waits);
      }
      bytesRead, blocked := Conclude(action, data, length);
    }

    /** The drain at the end of hid_close: it ends with an empty list and every report freed exactly once. */
    method Drain()
      requires Valid()
      modifies this`inputReports, this`contents, this`freed
      ensures Valid() && inputReports == null && contents == [] && freed == created
    {
      while inputReports != null
        invariant Valid()
        decreases |created| - |freed|
      {
        var _ := ReturnData(null, 0);
      }
    }
  }
}
