/** The input-report protocol between the thread that receives reports and any number of threads in
    hid_read_timeout, as a transition system whose steps are the critical sections of the mutex.
    hidapi/hid-libusb.c and hidapi/hid-macosx.c differ in three decisions only, marked by Platform. */
module ReadProtocol {
  import opened Bytes

  datatype Platform = Libusb | MacOS

  type Tid = nat
  type Report = seq<Byte>

  /** Reports the list can hold: the tail walk counts hops, so the comment's 30 is 32. */
  const QUEUE_LIMIT := 32

  // ---------------------------------------------------------------------------------------------
  // Decisions taken inside a critical section
  // ---------------------------------------------------------------------------------------------

  /** The queue after the callback has attached a report and popped one if more than 30 hops were made. */
  function Push(queue: seq<Report>, r: Report): seq<Report> {
    if |queue| - 1 > 30 then (queue + [r])[1..] else queue + [r]
  }

  predicate Evicts(queue: seq<Report>) {
    |queue| - 1 > 30
  }

  /** libusb signals only when the list was empty, macOS on every report. */
  predicate Signals(p: Platform, queue: seq<Report>) {
    p == MacOS || queue == []
  }

  /** What a reader does with the mutex held: take the oldest report, return a code, or wait. */
  datatype Action = Take | Code(code: int) | Wait

  /** First look at the queue and the flag. Milliseconds: -1 blocks, more than 0 waits with a deadline,
      anything else polls. */
  function EnterAction(queue: seq<Report>, stop: bool, ms: int): Action {
    if queue != [] then Take
    else if stop then Code(-1)
    else if ms == -1 || ms > 0 then Wait
    else Code(0)
  }

  /** A wait has returned 0. libusb looks at the queue first, macOS at the flags first. */
  function ResumeAction(p: Platform, queue: seq<Report>, stop: bool): Action {
    match p
    case Libusb => if queue != [] then Take else if stop then Code(-1) else Wait
    case MacOS => if stop then Code(-1) else if queue != [] then Take else Wait
  }

  // ---------------------------------------------------------------------------------------------
  // The transition system
  // ---------------------------------------------------------------------------------------------

  /** How a report left the queue; arrivals counts the reports received up to an eviction, its cause included. */
  datatype Removal = Delivered(reader: Tid, report: Report) | Evicted(arrivals: nat)

  /** The thread that runs read_thread: in its event loop, past the loop, past the broadcast. */
  datatype Daemon = Looping | Leaving | Gone

  /** sleeping: in the wait and not signalled. notified: signalled or spuriously woken, mutex not yet
      reacquired. expired: the wait gave up with a timeout. timed: called with a deadline.
      stop: shutdown_thread, or on macOS either of shutdown_thread and disconnected. */
  datatype State = State(
    queue: seq<Report>, stop: bool, daemon: Daemon,
    sleeping: set<Tid>, notified: set<Tid>, expired: set<Tid>, timed: set<Tid>,
    received: seq<Report>, removals: seq<Removal>)
  {
    /** The readers between their first wait and their return. */
    function Waiters(): set<Tid> {
      sleeping + notified + expired
    }
  }

  const INIT := State([], false, Looping, {}, {}, {}, {}, [], [])

  datatype Step =
    | Receive(report: Report, woken: set<Tid>)  // read_callback, hid_report_callback
    | Enter(reader: Tid, ms: int)               // hid_read_timeout up to its return or first wait
    | Resume(reader: Tid)                       // the wait returned 0: up to return or next wait
    | Spurious(reader: Tid)                     // a wakeup nobody signalled
    | Expire(reader: Tid)                       // the deadline passes
    | GiveUp(reader: Tid)                       // the wait returned ETIMEDOUT
    | SetStop                                   // a flag is written, outside the mutex
    | LeaveLoop(fatal: bool)                    // read_thread leaves its loop, by its guard or by break
    | Broadcast                                 // read_thread wakes every waiter

  /** pthread_cond_signal wakes at least one waiter if there is one. */
  predicate Wakes(s: State, signal: bool, woken: set<Tid>) {
    woken <= s.sleeping && (if signal then s.sleeping != {} ==> woken != {} else woken == {})
  }

  /** Only the threads in readers call hid_read_timeout. */
  predicate Enabled(p: Platform, readers: set<Tid>, s: State, step: Step) {
    match step
    case Receive(r, woken) => Wakes(s, Signals(p, s.queue), woken)
    case Enter(t, ms) => t in readers && t !in s.Waiters()
    case Resume(t) => t in s.notified
    case Spurious(t) => t in s.sleeping
    case Expire(t) => t in s.sleeping && t in s.timed
    case GiveUp(t) => t in s.expired
    case SetStop => true
    case LeaveLoop(fatal) => s.daemon == Looping && (fatal || s.stop)
    case Broadcast => s.daemon == Leaving
  }

  function Do(s: State, t: Tid, action: Action): State {
    match action
    case Code(_) => s
    case Wait => s.(sleeping := s.sleeping + {t})
    case Take =>
      if s.queue == [] then s
      else s.(queue := s.queue[1..], removals := s.removals + [Delivered(t, s.queue[0])])
  }

  function Apply(p: Platform, s: State, step: Step): State {
    match step
    case Receive(r, woken) =>
      s.(queue := Push(s.queue, r), received := s.received + [r],
         removals := if Evicts(s.queue) then s.removals + [Evicted(|s.received| + 1)] else s.removals,
         sleeping := s.sleeping - woken, notified := s.notified + woken)
    case Enter(t, ms) =>
      Do(s.(timed := if ms > 0 then s.timed + {t} else s.timed - {t}), t, EnterAction(s.queue, s.stop, ms))
    case Resume(t) => Do(s.(notified := s.notified - {t}), t, ResumeAction(p, s.queue, s.stop))
    case Spurious(t) => s.(sleeping := s.sleeping - {t}, notified := s.notified + {t})
    case Expire(t) => s.(sleeping := s.sleeping - {t}, expired := s.expired + {t})
    case GiveUp(t) => s.(expired := s.expired - {t})
    case SetStop => s.(stop := true)
    // On macOS each break first sets disconnected or shutdown_thread; libusb's fatal break sets nothing.
    case LeaveLoop(fatal) => s.(daemon := Leaving, stop := s.stop || p == MacOS)
    case Broadcast => s.(daemon := Gone, sleeping := {}, notified := s.notified + s.sleeping)
  }

  predicate Runs(p: Platform, readers: set<Tid>, s: State, steps: seq<Step>)
    decreases |steps|
  {
    steps == [] || (Enabled(p, readers, s, steps[0]) && Runs(p, readers, Apply(p, s, steps[0]), steps[1..]))
  }

  function After(p: Platform, s: State, steps: seq<Step>): State
    decreases |steps|
  {
    if steps == [] then s else After(p, Apply(p, s, steps[0]), steps[1..])
  }

  lemma First(p: Platform, readers: set<Tid>, s: State, step: Step, rest: seq<Step>)
    requires Enabled(p, readers, s, step) && Runs(p, readers, Apply(p, s, step), rest)
    ensures Runs(p, readers, s, [step] + rest)
    ensures After(p, s, [step] + rest) == After(p, Apply(p, s, step), rest)
  {
    assert ([step] + rest)[1..] == rest;
  }

  // ---------------------------------------------------------------------------------------------
  // Bookkeeping kept by every step
  // ---------------------------------------------------------------------------------------------

  /** A thread is in at most one phase, and only readers are in any. */
  predicate Phases(readers: set<Tid>, s: State) {
    && s.sleeping !! s.notified && s.sleeping !! s.expired && s.notified !! s.expired
    && s.sleeping + s.notified + s.expired <= readers
  }

  /** The i-th report to leave the queue is the i-th received; what has not left is the queue, in order.
      A report evicted as number i went when exactly 32 newer ones had arrived. */
  predicate History(s: State) {
    && |s.queue| <= QUEUE_LIMIT
    && |s.removals| <= |s.received|
    && s.queue == s.received[|s.removals|..]
    && (forall i :: 0 <= i < |s.removals| ==>
          match s.removals[i]
          case Delivered(_, r) => r == s.received[i]
          case Evicted(arrivals) => arrivals == i + 1 + QUEUE_LIMIT && arrivals <= |s.received|)
  }

  predicate Inv(readers: set<Tid>, s: State) {
    Phases(readers, s) && History(s)
  }

  lemma ReceiveKeepsHistory(p: Platform, s: State, report: Report, woken: set<Tid>)
    requires History(s)
    ensures History(Apply(p, s, Receive(report, woken)))
  {
    var s' := Apply(p, s, Receive(report, woken));
    assert s.queue + [report] == s'.received[|s.removals|..];
    if Evicts(s.queue) {
      assert (s.queue + [report])[1..] == s'.received[|s.removals| + 1..];
    }
  }

  lemma TakeKeepsHistory(s: State, t: Tid, action: Action)
    requires History(s)
    ensures History(Do(s, t, action))
  {
    if s.queue != [] {
      assert s.queue[1..] == s.received[|s.removals| + 1..];
    }
  }

  lemma StepKeepsInv(p: Platform, readers: set<Tid>, s: State, step: Step)
    requires Inv(readers, s) && Enabled(p, readers, s, step)
    ensures Inv(readers, Apply(p, s, step))
  {
    assert Phases(readers, Apply(p, s, step));
    match step
    case Receive(r, woken) => ReceiveKeepsHistory(p, s, r, woken);
    case Enter(t, ms) =>
      var noted := s.(timed := if ms > 0 then s.timed + {t} else s.timed - {t});
      TakeKeepsHistory(noted, t, EnterAction(s.queue, s.stop, ms));
    case Resume(t) => TakeKeepsHistory(s.(notified := s.notified - {t}), t, ResumeAction(p, s.queue, s.stop));
    case _ =>
  }

  lemma {:induction false} RunKeepsInv(p: Platform, readers: set<Tid>, s: State, steps: seq<Step>)
    requires Inv(readers, s) && Runs(p, readers, s, steps)
    ensures Inv(readers, After(p, s, steps))
    decreases |steps|
  {
    if steps != [] {
      StepKeepsInv(p, readers, s, steps[0]);
      RunKeepsInv(p, readers, Apply(p, s, steps[0]), steps[1..]);
    }
  }

  /** Bounded FIFO with history, in every run on either platform: nothing is lost, duplicated or reordered
      except by eviction, and a report is evicted only when 32 newer ones have arrived. */
  lemma QueueHistory(p: Platform, readers: set<Tid>, steps: seq<Step>)
    requires Runs(p, readers, INIT, steps)
    ensures History(After(p, INIT, steps))
  {
    RunKeepsInv(p, readers, INIT, steps);
  }

  /** The reports a run brings, in order. */
  function Incoming(steps: seq<Step>): seq<Report> {
    if steps == [] then []
    else (if steps[0].Receive? then [steps[0].report] else []) + Incoming(steps[1..])
  }

  /** Whatever the readers do, received grows by exactly the reports of the run. */
  lemma {:induction false} ReceivedInOrder(p: Platform, s: State, steps: seq<Step>)
    ensures After(p, s, steps).received == s.received + Incoming(steps)
    decreases |steps|
  {
    if steps != [] {
      ReceivedInOrder(p, Apply(p, s, steps[0]), steps[1..]);
    }
  }

  /** The timeout of a reader's latest call, if the run makes one that gets to run. */
  function LatestTimeout(steps: seq<Step>, t: Tid, before: int): int {
    if steps == [] then before
    else LatestTimeout(steps[1..], t, if steps[0].Enter? && steps[0].reader == t then steps[0].ms else before)
  }

  /** In every run exactly the readers whose latest call has a deadline can time out of their wait. */
  lemma {:induction false} ExpireIffTimed(p: Platform, readers: set<Tid>, s: State, steps: seq<Step>, t: Tid,
                                          before: int)
    requires t in s.timed <==> before > 0
    ensures var e := After(p, s, steps);
            Enabled(p, readers, e, Expire(t)) <==> t in e.sleeping && LatestTimeout(steps, t, before) > 0
    decreases |steps|
  {
    if steps != [] {
      var next := if steps[0].Enter? && steps[0].reader == t then steps[0].ms else before;
      ExpireIffTimed(p, readers, Apply(p, s, steps[0]), steps[1..], t, next);
    }
  }

  /** What the steps of a reader come to. It waits exactly on an empty, running device: on entry if its timeout
      allows, after a wakeup always. It returns with the oldest report if there is one, except that on macOS a
      flag comes first after a wakeup. A reader that has timed out returns empty-handed. */
  lemma ReaderSteps(p: Platform, readers: set<Tid>, s: State, t: Tid, ms: int)
    requires Phases(readers, s)
    ensures t !in s.Waiters() ==>
              var e := Apply(p, s, Enter(t, ms));
              && (t in e.sleeping <==> s.queue == [] && !s.stop && (ms == -1 || ms > 0))
              && (t in e.Waiters() ==> t in e.sleeping)
              && Took(s, e, t, s.queue != [])
    ensures t in s.notified ==>
              var e := Apply(p, s, Resume(t));
              && (t in e.sleeping <==> s.queue == [] && !s.stop)
              && (t in e.Waiters() ==> t in e.sleeping)
              && Took(s, e, t, s.queue != [] && (p == Libusb || !s.stop))
    ensures t in s.expired ==>
              var e := Apply(p, s, GiveUp(t)); t !in e.Waiters() && Took(s, e, t, false)
  {
  }

  /** A sleeping reader whose wait ends, unsignalled or by its deadline, no longer sleeps and has taken nothing. */
  lemma WaitEnds(p: Platform, readers: set<Tid>, s: State, t: Tid)
    requires Phases(readers, s) && t in s.sleeping
    ensures var e := Apply(p, s, Spurious(t)); t in e.notified && t !in e.sleeping && Took(s, e, t, false)
    ensures var e := Apply(p, s, Expire(t)); t in e.expired && t !in e.sleeping && Took(s, e, t, false)
  {
  }

  /** In every run a flag is set exactly if somebody set it, or on macOS read_thread left its loop. */
  lemma {:induction false} StopIff(p: Platform, s: State, steps: seq<Step>)
    ensures After(p, s, steps).stop <==>
            s.stop || SetStop in steps || (p == MacOS && exists step <- steps :: step.LeaveLoop?)
    decreases |steps|
  {
    if steps != [] {
      StopIff(p, Apply(p, s, steps[0]), steps[1..]);
      assert Apply(p, s, steps[0]).stop <==> s.stop || steps[0].SetStop? || (p == MacOS && steps[0].LeaveLoop?);
      assert forall step :: step in steps <==> step == steps[0] || step in steps[1..];
    }
  }

  /** Nothing left the queue but, if so, the oldest report to this reader; no other reader is affected. */
  ghost predicate Took(s: State, e: State, t: Tid, taken: bool) {
    && e.received == s.received && e.stop == s.stop && e.daemon == s.daemon
    && e.sleeping - {t} == s.sleeping - {t} && e.notified - {t} == s.notified - {t}
    && e.expired - {t} == s.expired - {t}
    && if taken then s.queue != [] && e.queue == s.queue[1..] && e.removals == s.removals + [Delivered(t, s.queue[0])]
       else e.queue == s.queue && e.removals == s.removals
  }

  // ---------------------------------------------------------------------------------------------
  // No lost wakeup
  // ---------------------------------------------------------------------------------------------

  /** A reader sleeps although a report is queued, and nobody is on the way to take it. */
  predicate Stranded(s: State) {
    !s.stop && s.queue != [] && s.sleeping != {} && s.notified == {}
  }

  /** macOS: every queued report has a reader of its own on the way while another one sleeps. */
  predicate EnoughAwake(s: State) {
    !s.stop && s.sleeping != {} && s.queue != [] ==> |s.notified| >= |s.queue|
  }

  lemma SignalWakesOneMore(s: State, woken: set<Tid>)
    requires s.sleeping !! s.notified && woken <= s.sleeping && woken != {}
    ensures |s.notified + woken| >= |s.notified| + 1
  {
    var t :| t in woken;
    assert |s.notified + woken| == |s.notified| + |woken|;
    assert {t} + (woken - {t}) == woken;
  }

  lemma ReceiveKeepsEnoughAwake(s: State, r: Report, woken: set<Tid>)
    requires s.sleeping !! s.notified && EnoughAwake(s) && Wakes(s, true, woken)
    ensures EnoughAwake(Apply(MacOS, s, Receive(r, woken)))
  {
    if s.sleeping != {} {
      SignalWakesOneMore(s, woken);
      assert |Push(s.queue, r)| <= |s.queue| + 1;
    }
  }

  lemma ResumeKeepsEnoughAwake(s: State, t: Tid)
    requires t in s.notified && EnoughAwake(s)
    ensures EnoughAwake(Apply(MacOS, s, Resume(t)))
  {
    assert |s.notified - {t}| == |s.notified| - 1;
  }

  lemma StepKeepsEnoughAwake(readers: set<Tid>, s: State, step: Step)
    requires Phases(readers, s) && EnoughAwake(s) && Enabled(MacOS, readers, s, step)
    ensures EnoughAwake(Apply(MacOS, s, step))
  {
    match step
    case Receive(r, woken) => ReceiveKeepsEnoughAwake(s, r, woken);
    case Resume(t) => ResumeKeepsEnoughAwake(s, t);
    case Spurious(t) => assert |s.notified + {t}| == |s.notified| + 1;
    case Enter(t, ms) => assert s.queue == [] || EnterAction(s.queue, s.stop, ms) == Take;
    case _ =>
  }

  lemma {:induction false} RunKeepsEnoughAwake(readers: set<Tid>, s: State, steps: seq<Step>)
    requires Inv(readers, s) && EnoughAwake(s) && Runs(MacOS, readers, s, steps)
    ensures EnoughAwake(After(MacOS, s, steps))
    decreases |steps|
  {
    if steps != [] {
      StepKeepsInv(MacOS, readers, s, steps[0]);
      StepKeepsEnoughAwake(readers, s, steps[0]);
      RunKeepsEnoughAwake(readers, Apply(MacOS, s, steps[0]), steps[1..]);
    }
  }

  /** macOS loses no wakeup, whatever the number of readers. */
  lemma MacOSNoLostWakeup(readers: set<Tid>, steps: seq<Step>)
    requires Runs(MacOS, readers, INIT, steps)
    ensures EnoughAwake(After(MacOS, INIT, steps))
    ensures !Stranded(After(MacOS, INIT, steps))
  {
    RunKeepsEnoughAwake(readers, INIT, steps);
  }

  /** libusb, as long as at most one reader at a time waits: it sleeps un-notified only on an empty queue. */
  predicate SleepsOnEmpty(s: State) {
    s.sleeping != {} ==> s.queue == []
  }

  /** In no state of the run more than so many calls are between their first wait and their return. */
  predicate Overlap(p: Platform, s: State, steps: seq<Step>, bound: nat)
    decreases |steps|
  {
    |s.Waiters()| <= bound && (steps == [] || Overlap(p, Apply(p, s, steps[0]), steps[1..], bound))
  }

  lemma StepKeepsSleepsOnEmpty(readers: set<Tid>, s: State, step: Step)
    requires |s.Waiters()| <= 1 && SleepsOnEmpty(s) && Enabled(Libusb, readers, s, step)
    ensures SleepsOnEmpty(Apply(Libusb, s, step))
  {
    forall t, u | t in s.sleeping && u in s.sleeping ensures t == u {
      assert {t, u} + (s.Waiters() - {t, u}) == s.Waiters();
    }
  }

  /** Any number of threads, taking turns in waiting. */
  lemma {:induction false} SleepersFaceEmptyQueue(readers: set<Tid>, s: State, steps: seq<Step>)
    requires SleepsOnEmpty(s) && Runs(Libusb, readers, s, steps) && Overlap(Libusb, s, steps, 1)
    ensures SleepsOnEmpty(After(Libusb, s, steps))
    decreases |steps|
  {
    if steps != [] {
      StepKeepsSleepsOnEmpty(readers, s, steps[0]);
      SleepersFaceEmptyQueue(readers, Apply(Libusb, s, steps[0]), steps[1..]);
    }
  }

  /** There are never more overlapping calls than readers. */
  lemma {:induction false} OverlapOfReaders(p: Platform, readers: set<Tid>, s: State, steps: seq<Step>)
    requires Inv(readers, s) && Runs(p, readers, s, steps)
    ensures Overlap(p, s, steps, |readers|)
    decreases |steps|
  {
    assert s.Waiters() + (readers - s.Waiters()) == readers;
    if steps != [] {
      StepKeepsInv(p, readers, s, steps[0]);
      OverlapOfReaders(p, readers, Apply(p, s, steps[0]), steps[1..]);
    }
  }

  lemma {:induction false} OverlapWithin(p: Platform, s: State, steps: seq<Step>, bound: nat, more: nat)
    requires Overlap(p, s, steps, bound) && bound <= more
    ensures Overlap(p, s, steps, more)
    decreases |steps|
  {
    if steps != [] {
      OverlapWithin(p, Apply(p, s, steps[0]), steps[1..], bound, more);
    }
  }

  /** The trace that strands the second of two readers: both wait, two reports arrive, one signal is sent. */
  function StrandingTrace(t: Tid, u: Tid): seq<Step> {
    [Enter(t, -1), Enter(u, -1), Receive([1], {t}), Receive([2], {}), Resume(t)]
  }

  lemma TwoReadersStrand(readers: set<Tid>, t: Tid, u: Tid)
    requires t in readers && u in readers && t != u
    ensures Runs(Libusb, readers, INIT, StrandingTrace(t, u))
    ensures Stranded(After(Libusb, INIT, StrandingTrace(t, u)))
  {
    var s1 := Apply(Libusb, INIT, Enter(t, -1));
    var s2 := Apply(Libusb, s1, Enter(u, -1));
    assert s2.sleeping == {t, u} && s2.queue == [];
    var s3 := Apply(Libusb, s2, Receive([1], {t}));
    assert s3.sleeping == {u} && s3.notified == {t} && s3.queue == [[1]];
    var s4 := Apply(Libusb, s3, Receive([2], {}));
    var s5 := Apply(Libusb, s4, Resume(t));
    assert s5.queue == [[2]] && s5.notified == {};
    First(Libusb, readers, s4, Resume(t), []);
    First(Libusb, readers, s3, Receive([2], {}), [Resume(t)]);
    First(Libusb, readers, s2, Receive([1], {t}), [Receive([2], {}), Resume(t)]);
    First(Libusb, readers, s1, Enter(u, -1), [Receive([1], {t}), Receive([2], {}), Resume(t)]);
    First(Libusb, readers, INIT, Enter(t, -1), [Enter(u, -1), Receive([1], {t}), Receive([2], {}), Resume(t)]);
  }

  /** Two overlapping calls are enough for it. */
  lemma StrandingOverlap(t: Tid, u: Tid)
    requires t != u
    ensures Overlap(Libusb, INIT, StrandingTrace(t, u), 2)
  {
    TwoReadersStrand({t, u}, t, u);
    OverlapOfReaders(Libusb, {t, u}, INIT, StrandingTrace(t, u));
  }

  /** No run in which at most so many calls wait at the same time strands a reader. */
  ghost predicate NeverStrands(p: Platform, readers: set<Tid>, bound: nat) {
    forall steps :: Runs(p, readers, INIT, steps) && Overlap(p, INIT, steps, bound) ==>
      !Stranded(After(p, INIT, steps))
  }

  /** On libusb wakeups are safe exactly while at most one call waits at a time: because the threads take
      turns, however many there are, or because there is only one. */
  lemma LibusbNoLostWakeupIffTakingTurns(readers: set<Tid>, bound: nat)
    ensures NeverStrands(Libusb, readers, bound) <==> bound <= 1 || |readers| <= 1
  {
    if bound <= 1 || |readers| <= 1 {
      forall steps | Runs(Libusb, readers, INIT, steps) && Overlap(Libusb, INIT, steps, bound)
        ensures !Stranded(After(Libusb, INIT, steps))
      {
        OverlapOfReaders(Libusb, readers, INIT, steps);
        OverlapWithin(Libusb, INIT, steps, if bound <= 1 then bound else |readers|, 1);
        SleepersFaceEmptyQueue(readers, INIT, steps);
      }
    } else {
      var t :| t in readers;
      assert |readers - {t}| >= 1;
      var u :| u in readers - {t};
      TwoReadersStrand(readers, t, u);
      StrandingOverlap(t, u);
      OverlapWithin(Libusb, INIT, StrandingTrace(t, u), 2, bound);
    }
  }

  // ---------------------------------------------------------------------------------------------
  // Shutdown wakes everyone
  // ---------------------------------------------------------------------------------------------

  /** The flag is set, the broadcast is over and nobody sleeps. */
  predicate Quiet(s: State) {
    s.stop && s.daemon == Gone && s.sleeping == {}
  }

  lemma {:induction false} QuietForGood(p: Platform, readers: set<Tid>, s: State, steps: seq<Step>)
    requires Quiet(s) && Runs(p, readers, s, steps)
    ensures Quiet(After(p, s, steps))
    decreases |steps|
  {
    if steps != [] {
      QuietForGood(p, readers, Apply(p, s, steps[0]), steps[1..]);
    }
  }

  /** read_thread does not take the break for fatal errors of libusb, which sets no flag. */
  predicate FlagAtExit(p: Platform, steps: seq<Step>) {
    p == Libusb ==> LeaveLoop(true) !in steps
  }

  lemma {:induction false} BroadcastIsQuiet(p: Platform, readers: set<Tid>, s: State, steps: seq<Step>)
    requires s.daemon != Looping ==> s.stop
    requires s.daemon == Gone ==> Quiet(s)
    requires Runs(p, readers, s, steps) && FlagAtExit(p, steps)
    ensures var e := After(p, s, steps); e.daemon == Gone ==> Quiet(e)
    decreases |steps|
  {
    if steps != [] {
      assert steps[0] in steps;
      BroadcastIsQuiet(p, readers, Apply(p, s, steps[0]), steps[1..]);
    }
  }

  /** Every run on macOS, and every run on libusb without a fatal error: once read_thread has broadcast, a flag
      is set and no reader sleeps, then or later. */
  lemma ShutdownWakesAll(p: Platform, readers: set<Tid>, steps: seq<Step>)
    requires Runs(p, readers, INIT, steps) && FlagAtExit(p, steps)
    ensures var e := After(p, INIT, steps);
            e.daemon == Gone ==> Quiet(e) && NobodySleepsAgain(p, readers, e)
  {
    BroadcastIsQuiet(p, readers, INIT, steps);
    var e := After(p, INIT, steps);
    if e.daemon == Gone {
      forall more | Runs(p, readers, e, more) ensures After(p, e, more).sleeping == {} {
        QuietForGood(p, readers, e, more);
      }
    }
  }

  /** No continuation puts a reader to sleep. */
  ghost predicate NobodySleepsAgain(p: Platform, readers: set<Tid>, s: State) {
    forall steps :: Runs(p, readers, s, steps) ==> After(p, s, steps).sleeping == {}
  }

  /** While the flag is clear a reader can drain the queue and go to sleep, whoever is left to wake it. */
  lemma {:induction false} CanSleep(readers: set<Tid>, s: State, t: Tid) returns (steps: seq<Step>)
    requires !s.stop && t in readers && Phases(readers, s)
    ensures Runs(Libusb, readers, s, steps) && t in After(Libusb, s, steps).sleeping
    decreases |s.queue|, if t in s.sleeping then 0 else if t in s.expired then 2 else 1
  {
    if t in s.sleeping {
      steps := [];
    } else {
      var step := if t in s.notified then Resume(t) else if t in s.expired then GiveUp(t) else Enter(t, -1);
      var rest := CanSleep(readers, Apply(Libusb, s, step), t);
      First(Libusb, readers, s, step, rest);
      steps := [step] + rest;
    }
  }

  /** libusb, at the moment after the broadcast: nobody will sleep again exactly when the flag is set.
      It can be clear, because the fatal break leaves the loop without setting it. */
  lemma LibusbShutdownWakesAllIffStopped(readers: set<Tid>, s: State)
    requires readers != {} && Inv(readers, s) && s.daemon == Leaving
    ensures Enabled(Libusb, readers, s, Broadcast)
    ensures NobodySleepsAgain(Libusb, readers, Apply(Libusb, s, Broadcast)) <==> s.stop
  {
    var after := Apply(Libusb, s, Broadcast);
    if s.stop {
      forall steps | Runs(Libusb, readers, after, steps) ensures After(Libusb, after, steps).sleeping == {} {
        QuietForGood(Libusb, readers, after, steps);
      }
    } else {
      StepKeepsInv(Libusb, readers, s, Broadcast);
      var t :| t in readers;
      var steps := CanSleep(readers, after, t);
      assert !NobodySleepsAgain(Libusb, readers, after);
    }
  }

  /** The clear-flag case is reachable: a fatal event-loop error, then the broadcast. */
  lemma FatalBreakLeavesFlagClear(readers: set<Tid>)
    ensures Runs(Libusb, readers, INIT, [LeaveLoop(true)])
    ensures var s := After(Libusb, INIT, [LeaveLoop(true)]); s.daemon == Leaving && !s.stop && Inv(readers, s)
  {
    First(Libusb, readers, INIT, LeaveLoop(true), []);
  }
}
