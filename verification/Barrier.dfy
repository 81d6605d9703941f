/** The barrier hidapi/hid-macosx.c builds from a mutex and a condition, as a transition system, and the
    shutdown handshake of read_thread and hid_close that rests on it. The wait is not in a loop, so the
    barrier depends on a wait that never returns unsignalled; whether it may is the parameter spurious. */
module Barrier {

  type Tid = nat

  /** log entries: a thread arrives in a round, a thread leaves a round with a return code. */
  datatype Event = Arrived(thread: Tid, round: nat) | Left(thread: Tid, round: nat, code: int)

  /** parked: waiting and not signalled. released: signalled, mutex not yet reacquired. rounds: the round each
      of these threads arrived in; round: rounds tripped so far. */
  datatype State = State(count: nat, parked: set<Tid>, released: set<Tid>, rounds: map<Tid, nat>,
                         round: nat, log: seq<Event>)

  const INIT := State(0, {}, {}, map[], 0, [])

  datatype Step = Arrive(thread: Tid) | Leave(thread: Tid) | Spurious(thread: Tid)

  predicate Enabled(spurious: bool, s: State, step: Step) {
    match step
    case Arrive(t) => t !in s.parked && t !in s.released
    case Leave(t) => t in s.released
    case Spurious(t) => spurious && t in s.parked
  }

  /** Arrive is the critical section up to the return or the wait; Leave is what follows the wait. */
  function Apply(trip: nat, s: State, step: Step): State {
    match step
    case Arrive(t) =>
      var arrived := s.log + [Arrived(t, s.round)];
      if s.count + 1 >= trip then
        s.(count := 0, parked := {}, released := s.released + s.parked, round := s.round + 1,
           log := arrived + [Left(t, s.round, 1)])
      else
        s.(count := s.count + 1, parked := s.parked + {t}, rounds := s.rounds[t := s.round], log := arrived)
    case Leave(t) =>
      s.(released := s.released - {t},
         log := s.log + [Left(t, if t in s.rounds then s.rounds[t] else s.round, 0)])
    case Spurious(t) => s.(parked := s.parked - {t}, released := s.released + {t})
  }

  predicate Runs(trip: nat, spurious: bool, s: State, steps: seq<Step>)
    decreases |steps|
  {
    steps == [] || (Enabled(spurious, s, steps[0]) && Runs(trip, spurious, Apply(trip, s, steps[0]), steps[1..]))
  }

  function After(trip: nat, s: State, steps: seq<Step>): State
    decreases |steps|
  {
    if steps == [] then s else After(trip, Apply(trip, s, steps[0]), steps[1..])
  }

  /** The threads that arrived in a round, and the number of returns of 1 in it. */
  function Arrivals(log: seq<Event>, round: nat): set<Tid> {
    set e <- log | e.Arrived? && e.round == round :: e.thread
  }

  function Winners(log: seq<Event>, round: nat): nat {
    if log == [] then 0
    else Winners(log[..|log| - 1], round) + if log[|log| - 1].Left? && log[|log| - 1].round == round
                                             && log[|log| - 1].code == 1 then 1 else 0
  }

  /** Arrivals of a thread in a round less its departures from it. */
  function Balance(log: seq<Event>, t: Tid, round: nat): int {
    if log == [] then 0
    else Balance(log[..|log| - 1], t, round) +
         match log[|log| - 1]
         case Arrived(u, r) => if u == t && r == round then 1 else 0
         case Left(u, r, _) => if u == t && r == round then -1 else 0
  }

  /** Every thread that left a round left it after trip different threads had arrived in it. */
  ghost predicate Safe(trip: nat, log: seq<Event>) {
    forall i :: 0 <= i < |log| && log[i].Left? ==> |Arrivals(log[..i], log[i].round)| == trip
  }

  // ---------------------------------------------------------------------------------------------
  // Correctness without spurious wakeups
  // ---------------------------------------------------------------------------------------------

  /** count counts the parked threads, which are all of the current round. */
  ghost predicate Members(trip: nat, s: State) {
    && s.parked !! s.released && s.parked + s.released <= s.rounds.Keys
    && |s.parked| == s.count < trip
    && (forall t <- s.parked :: s.rounds[t] == s.round)
    && (forall t <- s.released :: s.rounds[t] < s.round)
  }

  /** The parked threads are those that arrived in the current round; earlier rounds are complete. */
  ghost predicate Tally(trip: nat, log: seq<Event>, round: nat, parked: set<Tid>) {
    && Arrivals(log, round) == parked
    && (forall r: nat | r < round :: |Arrivals(log, r)| == trip && Winners(log, r) == 1)
    && (forall r: nat | r >= round :: Winners(log, r) == 0)
    && (forall e <- log :: e.round <= round)
    && Safe(trip, log)
  }

  /** Inside the barrier since this round, parked or on the way out. */
  predicate Inside(s: State, t: Tid, round: nat) {
    (t in s.parked || t in s.released) && t in s.rounds && s.rounds[t] == round
  }

  /** Whoever arrived in a round and has not left it is inside. */
  ghost predicate Accounted(s: State) {
    forall t: Tid, r: nat :: Balance(s.log, t, r) == if Inside(s, t, r) then 1 else 0
  }

  ghost predicate Inv(trip: nat, s: State) {
    Members(trip, s) && Tally(trip, s.log, s.round, s.parked) && Accounted(s)
  }

  /** How one more entry changes the counts. */
  lemma Appended(log: seq<Event>, e: Event, round: nat)
    ensures Arrivals(log + [e], round) ==
            Arrivals(log, round) + if e.Arrived? && e.round == round then {e.thread} else {}
    ensures Winners(log + [e], round) ==
            Winners(log, round) + if e.Left? && e.round == round && e.code == 1 then 1 else 0
  {
    assert (log + [e])[..|log|] == log;
    forall x ensures x in Arrivals(log + [e], round) <==>
                     x in Arrivals(log, round) || (e.Arrived? && e.round == round && x == e.thread)
    {
      if x in Arrivals(log, round) {
        assert Arrived(x, round) in log && Arrived(x, round) in log + [e];
      }
      if e.Arrived? && e.round == round && x == e.thread {
        assert e in log + [e];
      }
    }
  }

  lemma SafeAppended(trip: nat, log: seq<Event>, e: Event)
    requires Safe(trip, log) && (e.Left? ==> |Arrivals(log, e.round)| == trip)
    ensures Safe(trip, log + [e])
  {
    var more := log + [e];
    forall i | 0 <= i < |more| && more[i].Left? ensures |Arrivals(more[..i], more[i].round)| == trip {
      assert more[..i] == log[..i];
      assert log[..|log|] == log;
    }
  }

  lemma ArrivalLogged(trip: nat, log: seq<Event>, round: nat, parked: set<Tid>, t: Tid)
    requires Tally(trip, log, round, parked)
    ensures Tally(trip, log + [Arrived(t, round)], round, parked + {t})
  {
    var e := Arrived(t, round);
    SafeAppended(trip, log, e);
    forall r: nat
      ensures Arrivals(log + [e], r) == Arrivals(log, r) + if r == round then {t} else {}
      ensures Winners(log + [e], r) == Winners(log, r)
    {
      Appended(log, e, r);
    }
  }

  lemma LeavingLogged(trip: nat, log: seq<Event>, e: Event)
    requires Safe(trip, log) && e.Left? && |Arrivals(log, e.round)| == trip
    ensures Safe(trip, log + [e])
    ensures forall r: nat :: Arrivals(log + [e], r) == Arrivals(log, r)
    ensures forall r: nat ::
              Winners(log + [e], r) == Winners(log, r) + if r == e.round && e.code == 1 then 1 else 0
  {
    SafeAppended(trip, log, e);
    forall r: nat
      ensures Arrivals(log + [e], r) == Arrivals(log, r)
      ensures Winners(log + [e], r) == Winners(log, r) + if r == e.round && e.code == 1 then 1 else 0
    {
      Appended(log, e, r);
    }
  }

  lemma TripLogged(trip: nat, log: seq<Event>, round: nat, all: set<Tid>, t: Tid)
    requires Tally(trip, log, round, all) && |all| == trip
    ensures Tally(trip, log + [Left(t, round, 1)], round + 1, {})
  {
    LeavingLogged(trip, log, Left(t, round, 1));
    assert Arrivals(log, round + 1) == {};
  }

  lemma ParkKeepsMembers(trip: nat, s: State, t: Tid)
    requires Members(trip, s) && t !in s.parked && t !in s.released && s.count + 1 < trip
    ensures Members(trip, Apply(trip, s, Arrive(t)))
  {
    assert |s.parked + {t}| == s.count + 1;
  }

  lemma TripKeepsMembers(trip: nat, s: State, t: Tid)
    requires Members(trip, s) && t !in s.parked && t !in s.released && s.count + 1 >= trip
    ensures Members(trip, Apply(trip, s, Arrive(t)))
  {
  }

  lemma BalanceAppended(log: seq<Event>, e: Event, t: Tid, round: nat)
    ensures Balance(log + [e], t, round) ==
            Balance(log, t, round) + if e.thread != t || e.round != round then 0 else if e.Arrived? then 1 else -1
  {
    assert (log + [e])[..|log|] == log;
  }

  /** Parking adds the thread to those inside. */
  lemma ParkAccounted(trip: nat, s: State, t: Tid)
    requires Members(trip, s) && Accounted(s) && t !in s.parked && t !in s.released && s.count + 1 < trip
    ensures Accounted(Apply(trip, s, Arrive(t)))
  {
    var e := Apply(trip, s, Arrive(t));
    forall u: Tid, r: nat ensures Balance(e.log, u, r) == if Inside(e, u, r) then 1 else 0 {
      BalanceAppended(s.log, Arrived(t, s.round), u, r);
    }
  }

  /** Tripping loses nobody: the parked threads stay inside until they leave. */
  lemma TripAccounted(trip: nat, s: State, t: Tid)
    requires Members(trip, s) && Accounted(s) && t !in s.parked && t !in s.released && s.count + 1 >= trip
    ensures Accounted(Apply(trip, s, Arrive(t)))
  {
    var e := Apply(trip, s, Arrive(t));
    forall u: Tid, r: nat ensures Balance(e.log, u, r) == if Inside(e, u, r) then 1 else 0 {
      BalanceAppended(s.log, Arrived(t, s.round), u, r);
      BalanceAppended(s.log + [Arrived(t, s.round)], Left(t, s.round, 1), u, r);
      assert Balance(e.log, u, r) == Balance(s.log, u, r);
      assert Inside(e, u, r) <==> Inside(s, u, r);
    }
  }

  lemma LeaveAccounted(trip: nat, s: State, t: Tid)
    requires Members(trip, s) && Accounted(s) && t in s.released
    ensures Accounted(Apply(trip, s, Leave(t)))
  {
    var e := Apply(trip, s, Leave(t));
    forall u: Tid, r: nat ensures Balance(e.log, u, r) == if Inside(e, u, r) then 1 else 0 {
      BalanceAppended(s.log, Left(t, s.rounds[t], 0), u, r);
    }
  }

  lemma ArriveKeepsInv(trip: nat, s: State, t: Tid)
    requires Inv(trip, s) && t !in s.parked && t !in s.released
    ensures Inv(trip, Apply(trip, s, Arrive(t)))
  {
    ArrivalLogged(trip, s.log, s.round, s.parked, t);
    if s.count + 1 >= trip {
      TripKeepsMembers(trip, s, t);
      TripAccounted(trip, s, t);
      assert |s.parked + {t}| == s.count + 1;
      TripLogged(trip, s.log + [Arrived(t, s.round)], s.round, s.parked + {t}, t);
    } else {
      ParkKeepsMembers(trip, s, t);
      ParkAccounted(trip, s, t);
    }
  }

  lemma LeaveKeepsInv(trip: nat, s: State, t: Tid)
    requires Inv(trip, s) && t in s.released
    ensures Inv(trip, Apply(trip, s, Leave(t)))
  {
    LeavingLogged(trip, s.log, Left(t, s.rounds[t], 0));
    LeaveAccounted(trip, s, t);
  }

  lemma {:induction false} RunKeepsInv(trip: nat, s: State, steps: seq<Step>)
    requires Inv(trip, s) && Runs(trip, false, s, steps)
    ensures Inv(trip, After(trip, s, steps))
    decreases |steps|
  {
    if steps != [] {
      match steps[0] {
        case Arrive(t) => ArriveKeepsInv(trip, s, t);
        case Leave(t) => LeaveKeepsInv(trip, s, t);
        case Spurious(_) => assert false;
      }
      RunKeepsInv(trip, Apply(trip, s, steps[0]), steps[1..]);
    }
  }

  /** The barrier is correct for any trip count, any number of threads and any number of rounds: with the
      mutex free, count is the number of un-notified parked threads and below the trip count; no thread leaves
      a round before trip different threads arrived in it; one return per tripped round is 1; a thread that
      arrived in a tripped round has left it, once, or is free to. */
  lemma BarrierCorrect(trip: nat, steps: seq<Step>)
    requires trip > 0 && Runs(trip, false, INIT, steps)
    ensures var s := After(trip, INIT, steps);
            && |s.parked| == s.count < trip
            && Safe(trip, s.log)
            && (forall r: nat | r < s.round :: |Arrivals(s.log, r)| == trip && Winners(s.log, r) == 1)
            && (forall t: Tid :: t in s.released ==> t in s.rounds && Enabled(false, s, Leave(t)))
            && forall t: Tid, r: nat | r < s.round ::
                 Balance(s.log, t, r) == if t in s.released && s.rounds[t] == r then 1 else 0
  {
    RunKeepsInv(trip, INIT, steps);
    var s := After(trip, INIT, steps);
    forall t: Tid, r: nat | r < s.round
      ensures Balance(s.log, t, r) == if t in s.released && s.rounds[t] == r then 1 else 0
    {
      assert Balance(s.log, t, r) == if Inside(s, t, r) then 1 else 0;
    }
  }

  // ---------------------------------------------------------------------------------------------
  // Spurious wakeups
  // ---------------------------------------------------------------------------------------------

  ghost predicate AlwaysSafe(trip: nat, spurious: bool) {
    forall steps :: Runs(trip, spurious, INIT, steps) ==> Safe(trip, After(trip, INIT, steps).log)
  }

  /** With a trip count of one nobody ever waits, so a spurious wakeup has nobody to wake. */
  lemma {:induction false} NobodyWaits(s: State, steps: seq<Step>)
    requires Inv(1, s) && s.released == {} && Runs(1, true, s, steps)
    ensures Inv(1, After(1, s, steps))
    decreases |steps|
  {
    if steps != [] {
      assert s.parked == {};
      ArriveKeepsInv(1, s, steps[0].thread);
      NobodyWaits(Apply(1, s, steps[0]), steps[1..]);
    }
  }

  /** The barrier's promise holds exactly when waits do not return unsignalled, or nobody has to wait. */
  lemma SafeIffNoSpuriousWakeup(trip: nat, spurious: bool)
    requires trip > 0
    ensures AlwaysSafe(trip, spurious) <==> !spurious || trip == 1
  {
    if !spurious {
      forall steps | Runs(trip, spurious, INIT, steps) ensures Safe(trip, After(trip, INIT, steps).log) {
        BarrierCorrect(trip, steps);
      }
    } else if trip == 1 {
      forall steps | Runs(trip, spurious, INIT, steps) ensures Safe(trip, After(trip, INIT, steps).log) {
        NobodyWaits(INIT, steps);
      }
    } else {
      var s1 := Apply(trip, INIT, Arrive(0));
      var s2 := Apply(trip, s1, Spurious(0));
      var s3 := Apply(trip, s2, Leave(0));
      var steps := [Arrive(0), Spurious(0), Leave(0)];
      assert steps[1..][1..] == [Leave(0)] && [Leave(0)][1..] == [];
      assert Runs(trip, true, s2, [Leave(0)]) && After(trip, s2, [Leave(0)]) == s3;
      assert Runs(trip, true, s1, steps[1..]) && After(trip, s1, steps[1..]) == s3;
      assert Runs(trip, true, INIT, steps) && After(trip, INIT, steps) == s3;
      assert s3.log[1] == Left(0, 0, 0) && Arrivals(s3.log[..1], 0) == {0};
    }
  }

  // ---------------------------------------------------------------------------------------------
  // The shutdown handshake: read_thread may end only after hid_close has called CFRunLoopWakeUp
  // ---------------------------------------------------------------------------------------------

  const READER: Tid := 0
  const CLOSER: Tid := 1

  /** The barrier of trip count 2, and whether hid_close has made its run-loop calls. */
  datatype Shutdown = Shutdown(barrier: State, woken: bool)

  datatype Action = WakeUp | AtBarrier(step: Step)

  /** Only the two threads use the barrier, and hid_close arrives after its run-loop calls. */
  predicate CanDo(spurious: bool, s: Shutdown, a: Action) {
    match a
    case WakeUp => true
    case AtBarrier(step) =>
      && Enabled(spurious, s.barrier, step)
      && (step.Arrive? ==> step.thread == READER || (step.thread == CLOSER && s.woken))
  }

  function Do(s: Shutdown, a: Action): Shutdown {
    match a
    case WakeUp => s.(woken := true)
    case AtBarrier(step) => s.(barrier := Apply(2, s.barrier, step))
  }

  predicate CanRun(spurious: bool, s: Shutdown, actions: seq<Action>)
    decreases |actions|
  {
    actions == [] || (CanDo(spurious, s, actions[0]) && CanRun(spurious, Do(s, actions[0]), actions[1..]))
  }

  function Final(s: Shutdown, actions: seq<Action>): Shutdown
    decreases |actions|
  {
    if actions == [] then s else Final(Do(s, actions[0]), actions[1..])
  }

  /** Nobody but the two threads arrives, and the closer only once it has woken the run loop. */
  ghost predicate Ordered(s: Shutdown) {
    forall e <- s.barrier.log :: e.Arrived? ==> e.thread == READER || (e.thread == CLOSER && s.woken)
  }

  lemma {:induction false} HandshakeKeeps(s: Shutdown, actions: seq<Action>)
    requires Inv(2, s.barrier) && Ordered(s) && CanRun(false, s, actions)
    ensures Inv(2, Final(s, actions).barrier) && Ordered(Final(s, actions))
    decreases |actions|
  {
    if actions != [] {
      match actions[0] {
        case AtBarrier(Arrive(t)) => ArriveKeepsInv(2, s.barrier, t);
        case AtBarrier(Leave(t)) => LeaveKeepsInv(2, s.barrier, t);
        case AtBarrier(Spurious(_)) => assert false;
        case WakeUp =>
      }
      HandshakeKeeps(Do(s, actions[0]), actions[1..]);
    }
  }

  lemma OtherMember(threads: set<Tid>, x: Tid)
    requires |threads| >= 2
    ensures exists t :: t in threads && t != x
  {
    assert |threads - {x}| >= 1;
    var t :| t in threads - {x};
  }

  /** If read_thread has left the shutdown barrier, hid_close has called the run-loop wakeup. */
  ghost predicate ReaderLast(s: Shutdown) {
    (exists e <- s.barrier.log :: e.Left? && e.thread == READER) ==> s.woken
  }

  lemma ReaderOutlivesWakeUp(actions: seq<Action>)
    requires CanRun(false, Shutdown(INIT, false), actions)
    ensures ReaderLast(Final(Shutdown(INIT, false), actions))
  {
    HandshakeKeeps(Shutdown(INIT, false), actions);
    var s := Final(Shutdown(INIT, false), actions);
    var log := s.barrier.log;
    if e :| e in log && e.Left? && e.thread == READER {
      var i :| 0 <= i < |log| && log[i] == e;
      var threads := Arrivals(log[..i], e.round);
      OtherMember(threads, READER);
      var t :| t in threads && t != READER;
      assert Arrived(t, e.round) in log[..i] && Arrived(t, e.round) in log;
    }
  }

  /** read_thread parks, wakes unsignalled and leaves, with hid_close not yet there. */
  lemma SpuriousWakeupEndsReader() returns (actions: seq<Action>)
    ensures CanRun(true, Shutdown(INIT, false), actions) && !ReaderLast(Final(Shutdown(INIT, false), actions))
  {
    actions := [AtBarrier(Arrive(READER)), AtBarrier(Spurious(READER)), AtBarrier(Leave(READER))];
    var s1 := Do(Shutdown(INIT, false), actions[0]);
    var s2 := Do(s1, actions[1]);
    var s3 := Do(s2, actions[2]);
    assert actions[1..][1..] == [actions[2]] && [actions[2]][1..] == [];
    assert CanRun(true, s2, [actions[2]]) && Final(s2, [actions[2]]) == s3;
    assert CanRun(true, s1, actions[1..]) && Final(s1, actions[1..]) == s3;
    assert s3.barrier.log[1] == Left(READER, 0, 0) && s3.barrier.log[1] in s3.barrier.log;
  }

  ghost predicate AlwaysReaderLast(spurious: bool) {
    forall actions :: CanRun(spurious, Shutdown(INIT, false), actions) ==>
      ReaderLast(Final(Shutdown(INIT, false), actions))
  }

  /** The handshake rests on waits that do not return unsignalled: then, and only then, read_thread outlives
      the wakeup in every run. */
  lemma ReaderLastIffNoSpuriousWakeup(spurious: bool)
    ensures AlwaysReaderLast(spurious) <==> !spurious
  {
    if spurious {
      var actions := SpuriousWakeupEndsReader();
      assert !AlwaysReaderLast(spurious);
    } else {
      forall actions | CanRun(spurious, Shutdown(INIT, false), actions)
        ensures ReaderLast(Final(Shutdown(INIT, false), actions))
      {
        ReaderOutlivesWakeUp(actions);
      }
    }
  }
}
