/**
 * critical_concurrency/barrier.c: a reusable barrier over one mutex and one condition
 * variable. Each stretch of code run with the mutex held is one step; pthread_cond_wait puts
 * the thread to sleep at the end of a stretch, and the broadcast is a step of its own,
 * after the mutex is released. Any number of threads call barrier_wait, as often as they
 * like, and a sleeper may also wake for no reason.
 */
module Barrier {
  import opened Basics
  import opened Bits
  import opened Seqs

  // count is unsigned
  function Pred(count: nat): nat {
    if count == 0 then UINTS - 1 else count - 1
  }

  function LeaversLeft(n: nat): nat {
    (2 * n + UINTS - 1) % UINTS
  }

  // ---- The lock regions (lines 30-53) ----------------------------------------------------

  datatype Gate = Blocked | Arrived | Last

  /** What a thread at the gate finds, and the count it leaves. */
  function AtGate(n: nat, count: nat): (r: (Gate, nat)) {
    if count > n then (Blocked, count)
    else if Pred(count) == 0 then (Last, LeaversLeft(n))
    else (Arrived, Pred(count))
  }

  /** Whether a thread that has arrived may go on, and the count it leaves. */
  function AtInner(n: nat, count: nat): (r: (bool, nat)) {
    if count < n then (false, count) else (true, Pred(count))
  }

  class Fields {
    var count: nat
    var timesUsed: nat
    var nThreads: nat

    constructor (n: nat)
      ensures count == n && timesUsed == 0 && nThreads == n
    {
      count := n;
      timesUsed := 0;
      nThreads := n;
    }

    /** From taking the mutex at the gate to the next wait or to leaving. */
    method GateRegion() returns (next: Gate)
      modifies this
      ensures nThreads == old(nThreads)
      ensures (next, count) == AtGate(nThreads, old(count))
      ensures timesUsed == old(timesUsed) + if next.Last? then 1 else 0
    {
      if count > nThreads { return Blocked; }
      count := Pred(count);
      if count == 0 {
        count := LeaversLeft(nThreads);
        timesUsed := timesUsed + 1;
        return Last;
      }
      return Arrived;
    }

    /** From holding the mutex at the inner loop test to the next wait or to the unlock. */
    method InnerRegion() returns (passes: bool)
      modifies this
      ensures nThreads == old(nThreads) && timesUsed == old(timesUsed)
      ensures (passes, count) == AtInner(nThreads, old(count))
    {
      if count < nThreads { return false; }
      count := Pred(count);
      return true;
    }
  }

  // ---- The machine ------------------------------------------------------------------------

  /** A thread's place in barrier_wait. `round` is the value times_used had when it arrived. */
  datatype Status =
    | Outside
    | AtTheGate(awake: bool)
    | Waiting(round: nat, awake: bool)
    | Leaving(round: nat)   // mutex released, broadcast still to come

  /** `called`, `arrived` and `departed` count the calls, the passages of the gate and the exits of the whole run. */
  datatype State = State(count: nat, used: nat, threads: seq<Status>, called: nat, arrived: nat, departed: nat)

  datatype Action =
    | Call(t: nat)       // barrier_wait is called
    | Enter(t: nat)      // the lock region at the gate
    | Recheck(t: nat)    // the lock region at the inner loop
    | Broadcast(t: nat)
    | Spurious(t: nat)   // a sleeper wakes by itself

  function Woken(x: Status): Status {
    match x
    case AtTheGate(_) => AtTheGate(true)
    case Waiting(r, _) => Waiting(r, true)
    case _ => x
  }

  predicate Asleep(x: Status) {
    (x.AtTheGate? && !x.awake) || (x.Waiting? && !x.awake)
  }

  predicate Enabled(s: State, a: Action) {
    a.t < |s.threads| &&
    var x := s.threads[a.t];
    match a
    case Call(_) => x.Outside?
    case Enter(_) => x.AtTheGate? && x.awake
    case Recheck(_) => x.Waiting? && x.awake
    case Broadcast(_) => x.Leaving?
    case Spurious(_) => Asleep(x)
  }

  function Do(n: nat, s: State, a: Action): State
    requires Enabled(s, a)
  {
    var t := a.t;
    match a
    case Call(_) => s.(threads := s.threads[t := AtTheGate(true)], called := s.called + 1)
    case Enter(_) =>
      var (next, c) := AtGate(n, s.count);
      (match next
       case Blocked => s.(threads := s.threads[t := AtTheGate(false)])
       // the inner loop condition is evaluated in the same stretch
       case Arrived =>
         var (passes, c') := AtInner(n, c);
         s.(count := c', arrived := s.arrived + 1, departed := s.departed + (if passes then 1 else 0),
            threads := s.threads[t := if passes then Leaving(s.used) else Waiting(s.used, false)])
       case Last =>
         s.(count := c, used := s.used + 1, arrived := s.arrived + 1, departed := s.departed + 1,
            threads := s.threads[t := Leaving(s.used)]))
    case Recheck(_) =>
      var r := s.threads[t].round;
      var (passes, c) := AtInner(n, s.count);
      s.(count := c, departed := s.departed + (if passes then 1 else 0),
         threads := s.threads[t := if passes then Leaving(r) else Waiting(r, false)])
    case Broadcast(_) => s.(threads := Map(Woken, s.threads)[t := Outside])
    case Spurious(_) => s.(threads := s.threads[t := Woken(s.threads[t])])
  }

  ghost predicate Init(n: nat, s: State) {
    && s.count == n && s.used == 0 && s.called == 0 && s.arrived == 0 && s.departed == 0
    && forall t :: 0 <= t < |s.threads| ==> s.threads[t] == Outside
  }

  // ---- The invariant -----------------------------------------------------------------------

  datatype Place = TheGate | Inside

  predicate IsAt(x: Status, k: Place) {
    match k
    case TheGate => x.AtTheGate?
    case Inside => x.Waiting?
  }

  function At(k: Place): Status -> bool {
    x => IsAt(x, k)
  }

  /** The threads of a round are still gathering (or none has come yet). */
  predicate Filling(n: nat, s: State) {
    s.count <= n
  }

  /**
   * Gathering: n - count threads wait, all of the current round, and everyone of the earlier
   * rounds has left. Emptying: the round is over, count - n of its threads have still to leave,
   * and they are the threads that wait.
   */
  ghost predicate Phase(n: nat, s: State) {
    PhaseOf(n, s.count, s.used * n, s.arrived, s.departed, Count(s.threads, At(Inside)))
  }

  // full: the arrivals of the rounds that are complete
  predicate PhaseOf(n: nat, count: nat, full: nat, arrived: nat, departed: nat, waiting: nat) {
    && count > 0
    && (if count <= n then
          count + waiting == n && arrived == full + waiting && departed == full
        else
          count == n + waiting && waiting < n && arrived == full && departed + waiting == full)
  }

  ghost predicate Rounds(n: nat, s: State) {
    && (forall t :: 0 <= t < |s.threads| && s.threads[t].Waiting? ==>
          s.threads[t].round + (if Filling(n, s) then 0 else 1) == s.used)
    && (forall t :: 0 <= t < |s.threads| && s.threads[t].Leaving? ==> s.threads[t].round < s.used)
  }

  ghost predicate BroadcastPending(s: State) {
    exists t :: 0 <= t < |s.threads| && s.threads[t].Leaving?
  }

  /** Whoever called is still at the gate or has passed it. */
  ghost predicate Calls(s: State) {
    s.called == s.arrived + Count(s.threads, At(TheGate))
  }

  // The condition that the thread sleeps on holds.
  predicate Wakeable(n: nat, count: nat, x: Status) {
    (x.AtTheGate? && !x.awake && count <= n) || (x.Waiting? && !x.awake && count >= n)
  }

  /** No lost wake-up: a sleeper whose condition holds has a broadcast coming. */
  ghost predicate NoLostWakeup(n: nat, s: State) {
    (exists t :: 0 <= t < |s.threads| && Wakeable(n, s.count, s.threads[t])) ==> BroadcastPending(s)
  }

  ghost predicate Inv(n: nat, s: State) {
    0 < n <= UINTS / 2 && Phase(n, s) && Rounds(n, s) && NoLostWakeup(n, s) && Calls(s)
  }

  lemma InitInv(n: nat, s: State)
    requires 0 < n <= UINTS / 2 && Init(n, s)
    ensures Inv(n, s)
  {
    CountZero(s.threads, At(Inside));
    CountZero(s.threads, At(TheGate));
  }

  /** The count after the last arrival is 2n - 1 exactly when that fits an unsigned int. */
  lemma LeaversLeftValue(n: nat)
    requires n < UINTS
    ensures LeaversLeft(n) == 2 * n - 1 <==> 0 < n <= UINTS / 2
  {}

  lemma CountStep(n: nat, s: State, a: Action, k: Place)
    requires Enabled(s, a)
    ensures var t := Do(n, s, a);
      |t.threads| == |s.threads| &&
      Count(t.threads, At(k)) + (if IsAt(s.threads[a.t], k) then 1 else 0) ==
      Count(s.threads, At(k)) + (if IsAt(t.threads[a.t], k) then 1 else 0)
  {
    hide Count;
    if a.Broadcast? {
      CountSame(s.threads, Map(Woken, s.threads), At(k));
      CountUpdate(Map(Woken, s.threads), a.t, Outside, At(k));
    } else {
      CountUpdate(s.threads, a.t, Do(n, s, a).threads[a.t], At(k));
    }
  }

  lemma OneMore(used: nat, n: nat)
    ensures (used + 1) * n == used * n + n
  {}

  lemma KeepsPhase(n: nat, s: State, a: Action)
    requires 0 < n <= UINTS / 2 && Phase(n, s) && Enabled(s, a)
    ensures Phase(n, Do(n, s, a))
  {
    hide Count;
    LeaversLeftValue(n);
    CountStep(n, s, a, Inside);
    OneMore(s.used, n);
    hide LeaversLeft;
  }

  lemma KeepsRounds(n: nat, s: State, a: Action)
    requires 0 < n <= UINTS / 2 && Phase(n, s) && Rounds(n, s) && Enabled(s, a)
    ensures Rounds(n, Do(n, s, a))
  {
    hide Count;
    LeaversLeftValue(n);
    CountZero(s.threads, At(Inside));
    KeepsPhase(n, s, a);
    CountZero(Do(n, s, a).threads, At(Inside));
    hide LeaversLeft;
  }

  lemma KeepsWakeups(n: nat, s: State, a: Action)
    requires 0 < n <= UINTS / 2 && Phase(n, s) && NoLostWakeup(n, s) && Enabled(s, a)
    ensures NoLostWakeup(n, Do(n, s, a))
  {
    LeaversLeftValue(n);
    hide Count;
    var t := Do(n, s, a);
    if i :| 0 <= i < |t.threads| && Wakeable(n, t.count, t.threads[i]) {
      if t.threads[a.t].Leaving? {
      } else if a.Broadcast? {
        assert false;
      } else {
        assert Wakeable(n, s.count, s.threads[i]);
        var j :| 0 <= j < |s.threads| && s.threads[j].Leaving?;
        assert t.threads[j].Leaving?;
      }
    }
  }

  lemma KeepsCalls(n: nat, s: State, a: Action)
    requires Calls(s) && Enabled(s, a)
    ensures Calls(Do(n, s, a))
  {
    hide Count;
    CountStep(n, s, a, TheGate);
  }

  /** Every step keeps the invariant. */
  lemma KeepsInv(n: nat, s: State, a: Action)
    requires Inv(n, s) && Enabled(s, a)
    ensures Inv(n, Do(n, s, a))
  {
    hide Phase, Rounds, NoLostWakeup, Calls;
    KeepsCalls(n, s, a);
    KeepsPhase(n, s, a);
    KeepsRounds(n, s, a);
    KeepsWakeups(n, s, a);
  }

  // ---- What the invariant says about arrivals and departures -------------------------------

  /** A thread passes the gate only when every thread of every earlier round has left. */
  lemma ArrivalAfterAllLeft(n: nat, s: State, a: Action)
    requires Inv(n, s) && Enabled(s, a) && Do(n, s, a).arrived > s.arrived
    ensures s.departed == s.used * n && s.used * n <= s.arrived < (s.used + 1) * n
  {
    hide Count;
    assert (s.used + 1) * n == s.used * n + n;
  }

  /** A thread leaves only when all n of its round have arrived: times_used has passed its round. */
  lemma DepartureAfterAllArrived(n: nat, s: State, a: Action)
    requires Inv(n, s) && Enabled(s, a) && Do(n, s, a).departed > s.departed
    ensures var t := Do(n, s, a);
      && t.arrived == t.used * n
      && t.threads[a.t].Leaving? && t.threads[a.t].round + 1 == t.used
      && t.departed <= t.used * n
  {
    KeepsInv(n, s, a);
    LeaversLeftValue(n);
    CountStep(n, s, a, Inside);
    OneMore(s.used, n);
    hide Count, NoLostWakeup;
  }

  /** times_used goes up by one exactly when another n threads have arrived: it is the number of full rounds. */
  lemma RoundsOfN(n: nat, s: State)
    requires Inv(n, s)
    ensures s.used == s.arrived / n && (s.departed == s.used * n || s.arrived == s.used * n)
    ensures s.departed <= s.used * n <= s.arrived
  {
    CountZero(s.threads, At(Inside));
    hide Count, NoLostWakeup, Rounds;
    DivModUnique(s.arrived, n, s.used, s.arrived - s.used * n);
  }

  // ---- Nobody is left behind -----------------------------------------------------------------

  /** Nothing can happen any more but new calls and spurious wake-ups. */
  ghost predicate Settled(s: State) {
    forall a :: Enabled(s, a) ==> a.Call? || a.Spurious?
  }

  /** Steps the code takes on its own account. */
  predicate Working(a: Action) {
    a.Enter? || a.Recheck? || a.Broadcast?
  }

  lemma SettledThreads(s: State, t: nat)
    requires Settled(s) && t < |s.threads|
    ensures s.threads[t].Outside? || Asleep(s.threads[t])
  {
    assert !Enabled(s, Enter(t)) && !Enabled(s, Recheck(t)) && !Enabled(s, Broadcast(t));
  }

  /**
   * When the barrier has settled, fewer than n threads are inside, all of them of the current
   * round; of the calls made so far exactly the largest multiple of n has returned.
   */
  lemma SettledMeansRoundOpen(n: nat, s: State)
    requires Inv(n, s) && Settled(s)
    ensures s.used == s.called / n && s.departed == n * (s.called / n)
    ensures forall t :: 0 <= t < |s.threads| ==>
      s.threads[t].Outside? || (s.threads[t].Waiting? && s.threads[t].round == s.used)
    ensures Count(s.threads, At(Inside)) == s.called % n
  {
    hide Count;
    forall t | 0 <= t < |s.threads| ensures s.threads[t].Outside? || Asleep(s.threads[t]) {
      SettledThreads(s, t);
    }
    assert !BroadcastPending(s);
    CountZero(s.threads, At(Inside));
    assert Filling(n, s) by {
      assert forall t :: 0 <= t < |s.threads| ==> !Wakeable(n, s.count, s.threads[t]);
    }
    forall t | 0 <= t < |s.threads| ensures !IsAt(s.threads[t], TheGate) {
      assert !Wakeable(n, s.count, s.threads[t]);
    }
    CountZero(s.threads, At(TheGate));
    RoundsOfN(n, s);
    DivModUnique(s.called, n, s.used, Count(s.threads, At(Inside)));
  }

  // ---- Settling takes a bounded number of steps ---------------------------------------------

  // The places still to go through, weighed by m so that they outweigh what one broadcast can wake.
  function Effort(m: nat): Status -> nat {
    (x: Status) =>
      match x
      case Outside => 0
      case AtTheGate(awake) => 3 * m + if awake then 1 else 0
      case Waiting(_, awake) => 2 * m + if awake then 1 else 0
      case Leaving(_) => m
  }

  function Work(ts: seq<Status>, m: nat): nat {
    Sum(ts, Effort(m))
  }

  lemma WorkDrops(n: nat, s: State, a: Action)
    requires Enabled(s, a) && Working(a)
    ensures Work(Do(n, s, a).threads, |s.threads| + 1) < Work(s.threads, |s.threads| + 1)
  {
    var t := Do(n, s, a);
    var m := |s.threads| + 1;
    hide Sum;
    if a.Broadcast? {
      SumGrowth(s.threads, Map(Woken, s.threads), Effort(m), 1);
      SumUpdate(Map(Woken, s.threads), a.t, Outside, Effort(m));
    } else {
      SumUpdate(s.threads, a.t, t.threads[a.t], Effort(m));
    }
  }

  /** A run of the code's own steps, without new calls or spurious wake-ups. */
  ghost predicate IsRun(n: nat, s: State, run: seq<Action>)
    decreases |run|
  {
    run == [] || (Working(run[0]) && Enabled(s, run[0]) && IsRun(n, Do(n, s, run[0]), run[1..]))
  }

  ghost function After(n: nat, s: State, run: seq<Action>): State
    requires IsRun(n, s, run)
    decreases |run|
  {
    if run == [] then s else After(n, Do(n, s, run[0]), run[1..])
  }

  /**
   * Left to itself the barrier settles: a run has at most `Work` steps, and keeps the invariant,
   * so once it cannot go on, the calls made so far have returned n at a time.
   */
  lemma {:induction false} RunsSettle(n: nat, s: State, run: seq<Action>)
    requires Inv(n, s) && IsRun(n, s, run)
    ensures |run| <= Work(s.threads, |s.threads| + 1)
    ensures Inv(n, After(n, s, run)) && After(n, s, run).called == s.called
    ensures Settled(After(n, s, run)) ==>
      var t := After(n, s, run);
      t.departed == n * (s.called / n) && t.used == s.called / n && Count(t.threads, At(Inside)) == s.called % n
    decreases |run|
  {
    hide Inv, Work, Settled, Count;
    if run == [] {
      if Settled(s) { SettledMeansRoundOpen(n, s); }
    } else {
      var t := Do(n, s, run[0]);
      KeepsInv(n, s, run[0]);
      WorkDrops(n, s, run[0]);
      RunsSettle(n, t, run[1..]);
    }
  }
}
