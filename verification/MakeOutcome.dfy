/**
 * What every run of parallel_make/parmake.c does: it ends, after a bounded number of steps
 * and with every worker stopped; no rule runs twice or after a failed dependency; and the
 * state "" ends in says whether every rule succeeded.
 */
module MakeOutcome {
  import opened MakeRule
  import opened MakeRun
  import opened Seqs

  // ---- Runs ---------------------------------------------------------------------------

  /** A run from s: each action is enabled where it is taken. */
  ghost predicate IsRun(p: Plan, s: State, run: seq<Action>)
    requires Inv(p, s)
    decreases |run|
  {
    run == [] || (Enabled(s, run[0]) && IsRunAfter(p, s, run))
  }

  ghost predicate IsRunAfter(p: Plan, s: State, run: seq<Action>)
    requires Inv(p, s) && run != [] && Enabled(s, run[0])
    decreases |run|, 0
  {
    KeepsInv(p, s, run[0]);
    IsRun(p, Do(p, s, run[0]), run[1..])
  }

  ghost function After(p: Plan, s: State, run: seq<Action>): State
    requires Inv(p, s) && IsRun(p, s, run)
    decreases |run|
  {
    if run == [] then s else AfterFirst(p, s, run)
  }

  ghost function AfterFirst(p: Plan, s: State, run: seq<Action>): State
    requires Inv(p, s) && run != [] && Enabled(s, run[0]) && IsRunAfter(p, s, run)
    decreases |run|, 0
  {
    KeepsInv(p, s, run[0]);
    After(p, Do(p, s, run[0]), run[1..])
  }

  /** The invariant holds in every state a run reaches. */
  lemma {:induction false} AfterKeepsInv(p: Plan, s: State, run: seq<Action>)
    requires Inv(p, s) && IsRun(p, s, run)
    ensures Inv(p, After(p, s, run))
    decreases |run|
  {
    hide Inv, Do, Enabled;
    if run != [] {
      KeepsInv(p, s, run[0]);
      AfterKeepsInv(p, Do(p, s, run[0]), run[1..]);
    }
  }

  lemma InitTold(p: Plan, s: State)
    requires WellFormed(p) && Init(p, s)
    ensures Counted(p, s.state, s.satisfied, s.heard, s.coordinator, s.pushed)
  {
    forall q | q in p.deps ensures Told(p, s.state, s.heard, s.coordinator, q) == {} {}
  }

  lemma RulesHold(names: seq<string>)
    ensures forall j :: j in Rules(names) <==> j.Rule? && j.name in names
    ensures Distinct(names) ==> Distinct(Rules(names))
  {
    forall r | r in names ensures Rule(r) in Rules(names) {
      var k :| 0 <= k < |names| && names[k] == r;
      assert Rules(names)[k] == Rule(r);
    }
  }

  lemma InitPlaced(p: Plan, s: State)
    requires WellFormed(p) && Init(p, s)
    ensures Placed(s.state, s.jobs, s.workers, s.pushed)
  {
    RulesHold(s.pushed);
    hide WellFormed, Rules;
    assert forall x :: x in s.workers ==> x == Idle;
  }

  lemma InitRest(p: Plan, s: State)
    requires WellFormed(p) && Init(p, s)
    ensures TypeOk(p, s) && Draining(s.jobs, s.workers, s.coordinator)
  {
    RulesHold(s.pushed);
    hide WellFormed, Rules;
    assert forall x :: x in s.workers ==> x == Idle;
  }

  lemma InitQuiet(p: Plan, s: State)
    requires WellFormed(p) && Init(p, s)
    ensures Settled(s.state, s.checked, s.heard) && CheckedOnce(s.pushed, s.checked, s.heard)
    ensures Justified(p, s.state, s.heard, s.pushed) && Spread(p, s.state, s.heard, s.coordinator)
    ensures Coordinated(p, s.state, s.heard, s.coordinator)
  {
    hide WellFormed, Rules;
  }

  /** parmake starts in a state that satisfies the invariant. */
  lemma InitInv(p: Plan, s: State)
    requires WellFormed(p) && Init(p, s)
    ensures Inv(p, s)
  {
    hide Counted, WellFormed, Placed, Draining, TypeOk, Settled, CheckedOnce, Justified, Spread, Coordinated, Init;
    InitTold(p, s);
    InitPlaced(p, s);
    InitRest(p, s);
    InitQuiet(p, s);
  }

  // ---- Safety -----------------------------------------------------------------------------

  /** chain[0] needs chain[1] needs chain[2] ...: a transitive dependency. */
  ghost predicate Chain(p: Plan, chain: seq<string>) {
    && |chain| > 0 && chain[0] in p.deps
    && forall i {:trigger chain[i]} :: 0 < i < |chain| ==> chain[i - 1] in p.deps && chain[i] in p.deps[chain[i - 1]]
  }

  lemma PushedDeps(p: Plan, s: State, r: string, d: string)
    requires Inv(p, s) && r in s.pushed && r in p.deps && d in p.deps[r]
    ensures d in s.heard && d in s.state && s.state[d] == 0 && d in s.pushed
  {
    hide Placed, CheckedOnce, Spread, Coordinated, Draining, Settled, Blamed;
    assert d in Told(p, s.state, s.heard, s.coordinator, r);
  }

  /**
   * Safety: once a rule has entered `jobs`, every direct or transitive dependency has itself
   * been queued, run and heard with state 0. So no rule runs with a failed dependency anywhere
   * below it.
   */
  lemma {:induction false} QueuedAfterDependencies(p: Plan, s: State, chain: seq<string>, i: nat)
    requires Inv(p, s) && Chain(p, chain) && chain[0] in s.pushed && 0 < i < |chain|
    ensures chain[i] in s.pushed && chain[i] in s.heard && chain[i] in s.state && s.state[chain[i]] == 0
  {
    hide Inv;
    if i > 1 { QueuedAfterDependencies(p, s, chain, i - 1); }
    PushedDeps(p, s, chain[i - 1], chain[i]);
  }

  /** A rule enters `jobs` at most once; one being run has done so, and is run by one worker only. */
  lemma RunningWasQueued(p: Plan, s: State, w: nat)
    requires Inv(p, s) && w < |s.workers| && s.workers[w].Busy?
    ensures Distinct(s.pushed) && s.workers[w].rule in s.pushed
    ensures forall v :: 0 <= v < |s.workers| && s.workers[v] == s.workers[w] ==> v == w
  {
    hide Told, CheckedOnce, Spread, Coordinated, Draining, Justified, WellFormed;
    assert s.workers[w] in s.workers;
  }

  // ---- Every run ends ----------------------------------------------------------------------

  /** Steps a rule on `checked` can still cause: itself, and for each user a report and its run. */
  ghost function Weight(p: Plan, level: map<string, nat>, top: nat, r: string): nat
    requires WellFormed(p) && Layered(p, level, top) && r in p.deps
    decreases top - level[r], |p.users[r]| + 1
  {
    1 + WeightAll(p, level, top, r, p.users[r])
  }

  ghost function WeightAll(p: Plan, level: map<string, nat>, top: nat, r: string, users: seq<string>): nat
    requires WellFormed(p) && Layered(p, level, top) && r in p.deps
    requires forall q :: q in users ==> q in p.users[r]
    decreases top - level[r], |users|
  {
    if users == [] then 0
    else
      assert users[0] in p.users[r];
      Weight(p, level, top, users[0]) + 3 + WeightAll(p, level, top, r, users[1..])
  }

  ghost function JobsCost(p: Plan, level: map<string, nat>, top: nat, jobs: seq<Job>): nat
    requires WellFormed(p) && Layered(p, level, top)
    requires forall r :: Rule(r) in jobs ==> r in p.deps
  {
    if jobs == [] then 0
    else (if jobs[0].Null? then 0 else Weight(p, level, top, jobs[0].name) + 2) + JobsCost(p, level, top, jobs[1..])
  }

  ghost function CheckedCost(p: Plan, level: map<string, nat>, top: nat, checked: seq<string>): nat
    requires WellFormed(p) && Layered(p, level, top)
    requires forall r :: r in checked ==> r in p.deps
  {
    if checked == [] then 0
    else Weight(p, level, top, checked[0]) + CheckedCost(p, level, top, checked[1..])
  }

  ghost function WorkerCost(p: Plan, level: map<string, nat>, top: nat, w: Worker): nat
    requires WellFormed(p) && Layered(p, level, top)
    requires w.Busy? ==> w.rule in p.deps
  {
    match w
    case Idle => 2
    case Busy(r) => Weight(p, level, top, r) + 3
    case Leaving => 1
    case Gone => 0
  }

  ghost function WorkersCost(p: Plan, level: map<string, nat>, top: nat, workers: seq<Worker>): nat
    requires WellFormed(p) && Layered(p, level, top)
    requires forall r :: Busy(r) in workers ==> r in p.deps
  {
    if workers == [] then 0
    else WorkerCost(p, level, top, workers[0]) + WorkersCost(p, level, top, workers[1..])
  }

  ghost function CoordinatorCost(p: Plan, level: map<string, nat>, top: nat, c: Coordinator): nat
    requires WellFormed(p) && Layered(p, level, top)
    requires c.Telling? ==> c.rule in p.deps && forall q :: q in c.todo ==> q in p.users[c.rule]
  {
    match c
    case Waiting => 1
    case Telling(r, _, todo) => 1 + WeightAll(p, level, top, r, todo)
    case Broke => 1
    case Joining => 0
  }

  ghost predicate Costed(p: Plan, s: State) {
    && TypeOk(p, s)
    && (s.coordinator.Telling? ==> s.coordinator.rule in p.users && forall q :: q in s.coordinator.todo ==> q in p.users[s.coordinator.rule])
  }

  /** An upper bound on the steps left. */
  ghost function Cost(p: Plan, level: map<string, nat>, top: nat, s: State): nat
    requires WellFormed(p) && Layered(p, level, top) && Costed(p, s)
  {
    JobsCost(p, level, top, s.jobs) + CheckedCost(p, level, top, s.checked)
    + WorkersCost(p, level, top, s.workers) + CoordinatorCost(p, level, top, s.coordinator)
  }

  lemma {:induction false} JobsCostAppend(p: Plan, level: map<string, nat>, top: nat, jobs: seq<Job>, j: Job)
    requires WellFormed(p) && Layered(p, level, top)
    requires forall r :: Rule(r) in jobs + [j] ==> r in p.deps
    ensures JobsCost(p, level, top, jobs + [j]) ==
      JobsCost(p, level, top, jobs) + (if j.Null? then 0 else Weight(p, level, top, j.name) + 2)
  {
    hide WellFormed, Layered, Weight;
    assert j in jobs + [j];
    if jobs == [] {
      assert jobs + [j] == [j];
    } else {
      assert (jobs + [j])[1..] == jobs[1..] + [j];
      JobsCostAppend(p, level, top, jobs[1..], j);
    }
  }

  lemma {:induction false} CheckedCostAppend(p: Plan, level: map<string, nat>, top: nat, checked: seq<string>, r: string)
    requires WellFormed(p) && Layered(p, level, top)
    requires forall x :: x in checked + [r] ==> x in p.deps
    ensures CheckedCost(p, level, top, checked + [r]) == CheckedCost(p, level, top, checked) + Weight(p, level, top, r)
  {
    hide WellFormed, Layered, Weight;
    if checked == [] {
      assert checked + [r] == [r];
    } else {
      assert (checked + [r])[1..] == checked[1..] + [r];
      CheckedCostAppend(p, level, top, checked[1..], r);
    }
  }

  lemma {:induction false} WorkersCostUpdate(p: Plan, level: map<string, nat>, top: nat, workers: seq<Worker>, w: nat, x: Worker)
    requires WellFormed(p) && Layered(p, level, top) && w < |workers|
    requires forall r :: Busy(r) in workers ==> r in p.deps
    requires x.Busy? ==> x.rule in p.deps
    ensures workers[w].Busy? ==> workers[w].rule in p.deps
    ensures forall r :: Busy(r) in workers[w := x] ==> r in p.deps
    ensures WorkersCost(p, level, top, workers[w := x]) + WorkerCost(p, level, top, workers[w]) ==
      WorkersCost(p, level, top, workers) + WorkerCost(p, level, top, x)
  {
    hide WellFormed, Layered, WorkerCost;
    assert workers[w] in workers;
    assert forall y :: y in workers[w := x] ==> y in workers || y == x;
    if w > 0 {
      assert workers[w := x][1..] == workers[1..][w - 1 := x];
      WorkersCostUpdate(p, level, top, workers[1..], w - 1, x);
    }
  }

  ghost predicate Descends(p: Plan, level: map<string, nat>, top: nat, s: State, t: State) {
    && WellFormed(p) && Layered(p, level, top) && Costed(p, s) && Costed(p, t)
    && Cost(p, level, top, t) < Cost(p, level, top, s)
  }

  lemma InvCosted(p: Plan, s: State)
    requires Inv(p, s)
    ensures Costed(p, s)
  {}

  lemma CostTake(p: Plan, level: map<string, nat>, top: nat, s: State, w: nat)
    requires WellFormed(p) && Layered(p, level, top)
    requires Enabled(s, Take(w)) && Costed(p, s) && Costed(p, Start(w, s))
    ensures Cost(p, level, top, Start(w, s)) < Cost(p, level, top, s)
  {
    var t := Start(w, s);
    hide WellFormed, Layered, Weight, CheckedCost, WorkersCost, CoordinatorCost;
    assert s.jobs[0] in s.jobs;
    WorkersCostUpdate(p, level, top, s.workers, w, t.workers[w]);
  }

  lemma CostFinish(p: Plan, level: map<string, nat>, top: nat, s: State, w: nat, ok: bool)
    requires WellFormed(p) && Layered(p, level, top)
    requires Enabled(s, Finish(w, ok)) && Costed(p, s) && Costed(p, Complete(w, ok, s))
    ensures Cost(p, level, top, Complete(w, ok, s)) < Cost(p, level, top, s)
  {
    hide WellFormed, Layered, Weight, CheckedCost, WorkersCost, CoordinatorCost, JobsCost;
    WorkersCostUpdate(p, level, top, s.workers, w, Idle);
    CheckedCostAppend(p, level, top, s.checked, s.workers[w].rule);
  }

  lemma CostNull(p: Plan, level: map<string, nat>, top: nat, s: State, t: State)
    requires WellFormed(p) && Layered(p, level, top) && Costed(p, s) && Costed(p, t)
    requires t.jobs == s.jobs + [Null] && t.checked == s.checked
    requires WorkersCost(p, level, top, t.workers) + CoordinatorCost(p, level, top, t.coordinator) <
             WorkersCost(p, level, top, s.workers) + CoordinatorCost(p, level, top, s.coordinator)
    ensures Cost(p, level, top, t) < Cost(p, level, top, s)
  {
    hide WellFormed, Layered, Weight, CheckedCost, WorkersCost, CoordinatorCost, JobsCost;
    JobsCostAppend(p, level, top, s.jobs, Null);
  }

  lemma CostPassOn(p: Plan, level: map<string, nat>, top: nat, s: State, t: State, w: nat)
    requires WellFormed(p) && Layered(p, level, top) && Costed(p, s) && Costed(p, t)
    requires w < |s.workers| && s.workers[w].Leaving? && t == s.(jobs := s.jobs + [Null], workers := s.workers[w := Gone])
    ensures Cost(p, level, top, t) < Cost(p, level, top, s)
  {
    hide WellFormed, Layered, Weight, CheckedCost, WorkersCost, CoordinatorCost, JobsCost, Cost;
    WorkersCostUpdate(p, level, top, s.workers, w, Gone);
    CostNull(p, level, top, s, t);
  }

  lemma CostListen(p: Plan, level: map<string, nat>, top: nat, s: State)
    requires WellFormed(p) && Layered(p, level, top)
    requires Enabled(s, Listen) && Costed(p, s) && s.checked[0] in s.state && s.checked[0] in p.users
    requires Costed(p, Hear(p, s))
    ensures Cost(p, level, top, Hear(p, s)) < Cost(p, level, top, s)
  {
    hide WellFormed, Layered, WorkersCost, JobsCost;
    assert s.checked[0] in s.checked;
  }

  lemma CostTell(p: Plan, level: map<string, nat>, top: nat, s: State)
    requires WellFormed(p) && Layered(p, level, top)
    requires Enabled(s, Tell) && Costed(p, s) && s.coordinator.todo[0] in s.satisfied
    requires Costed(p, TellOne(p, s))
    ensures Cost(p, level, top, TellOne(p, s)) < Cost(p, level, top, s)
  {
    hide WellFormed, Layered, WorkersCost, JobsCost, CheckedCost, Weight;
    var c := s.coordinator;
    var q := c.todo[0];
    assert q in c.todo;
    var t := TellOne(p, s);
    if c.failed {
      CheckedCostAppend(p, level, top, s.checked, q);
    } else if s.satisfied[q] + 1 == |p.deps[q]| {
      JobsCostAppend(p, level, top, s.jobs, Rule(q));
    }
  }

  lemma StepTake(p: Plan, level: map<string, nat>, top: nat, s: State, w: nat)
    requires Inv(p, s) && Layered(p, level, top) && Enabled(s, Take(w))
    ensures Descends(p, level, top, s, Do(p, s, Take(w)))
  {
    hide WellFormed, Layered, TypeOk, Costed, Counted, Settled, Placed, CheckedOnce, Justified, Spread, Coordinated, Draining, Cost, Weight;
    KeepsInv(p, s, Take(w));
    InvCosted(p, s);
    InvCosted(p, Do(p, s, Take(w)));
    CostTake(p, level, top, s, w);
  }

  lemma StepFinish(p: Plan, level: map<string, nat>, top: nat, s: State, w: nat, ok: bool)
    requires Inv(p, s) && Layered(p, level, top) && Enabled(s, Finish(w, ok))
    ensures Descends(p, level, top, s, Do(p, s, Finish(w, ok)))
  {
    hide WellFormed, Layered, TypeOk, Costed, Counted, Settled, Placed, CheckedOnce, Justified, Spread, Coordinated, Draining, Cost, Weight;
    KeepsInv(p, s, Finish(w, ok));
    InvCosted(p, s);
    InvCosted(p, Do(p, s, Finish(w, ok)));
    CostFinish(p, level, top, s, w, ok);
  }

  lemma StepPassOn(p: Plan, level: map<string, nat>, top: nat, s: State, w: nat)
    requires Inv(p, s) && Layered(p, level, top) && Enabled(s, PassOn(w))
    ensures Descends(p, level, top, s, Do(p, s, PassOn(w)))
  {
    hide WellFormed, Layered, TypeOk, Costed, Counted, Settled, Placed, CheckedOnce, Justified, Spread, Coordinated, Draining, Cost, Weight;
    KeepsInv(p, s, PassOn(w));
    InvCosted(p, s);
    InvCosted(p, Do(p, s, PassOn(w)));
    CostPassOn(p, level, top, s, Do(p, s, PassOn(w)), w);
  }

  lemma StepListen(p: Plan, level: map<string, nat>, top: nat, s: State)
    requires Inv(p, s) && Layered(p, level, top) && Enabled(s, Listen)
    ensures Descends(p, level, top, s, Do(p, s, Listen))
  {
    hide WellFormed, Layered, TypeOk, Costed, Counted, Settled, Placed, CheckedOnce, Justified, Spread, Coordinated, Draining, Cost, Weight;
    KeepsInv(p, s, Listen);
    InvCosted(p, s);
    InvCosted(p, Do(p, s, Listen));
    HeadOfChecked(p, s);
    CostListen(p, level, top, s);
  }

  lemma StepTell(p: Plan, level: map<string, nat>, top: nat, s: State)
    requires Inv(p, s) && Layered(p, level, top) && Enabled(s, Tell)
    ensures Descends(p, level, top, s, Do(p, s, Tell))
  {
    hide WellFormed, Layered, TypeOk, Costed, Counted, Settled, Placed, CheckedOnce, Justified, Spread, Coordinated, Draining, Cost, Weight;
    KeepsInv(p, s, Tell);
    InvCosted(p, s);
    InvCosted(p, Do(p, s, Tell));
    TellFacts(p, s);
    CostTell(p, level, top, s);
  }

  lemma StepShut(p: Plan, level: map<string, nat>, top: nat, s: State)
    requires Inv(p, s) && Layered(p, level, top) && Enabled(s, Shut)
    ensures Descends(p, level, top, s, Do(p, s, Shut))
  {
    hide WellFormed, Layered, TypeOk, Costed, Counted, Settled, Placed, CheckedOnce, Justified, Spread, Coordinated, Draining, Cost, Weight;
    KeepsInv(p, s, Shut);
    InvCosted(p, s);
    InvCosted(p, Do(p, s, Shut));
    CostNull(p, level, top, s, Do(p, s, Shut));
  }

  /** Every step lowers the bound. */
  lemma StepCost(p: Plan, level: map<string, nat>, top: nat, s: State, a: Action)
    requires Inv(p, s) && Layered(p, level, top) && Enabled(s, a)
    ensures Inv(p, Do(p, s, a)) && Descends(p, level, top, s, Do(p, s, a))
  {
    hide Inv, Do, Layered, Descends;
    KeepsInv(p, s, a);
    match a {
      case Take(w) => StepTake(p, level, top, s, w);
      case Finish(w, ok) => StepFinish(p, level, top, s, w, ok);
      case PassOn(w) => StepPassOn(p, level, top, s, w);
      case Listen => StepListen(p, level, top, s);
      case Tell => StepTell(p, level, top, s);
      case Shut => StepShut(p, level, top, s);
    }
  }

  /** Every run from a state takes at most Cost steps: no run goes on for ever. */
  lemma {:induction false} RunsAreBounded(p: Plan, level: map<string, nat>, top: nat, s: State, run: seq<Action>)
    requires Inv(p, s) && IsRun(p, s, run) && Layered(p, level, top)
    ensures WellFormed(p) && Costed(p, s) && |run| <= Cost(p, level, top, s)
    decreases |run|
  {
    InvCosted(p, s);
    hide Inv, Do, Layered, WellFormed, Costed, Cost, Enabled;
    if run != [] {
      StepCost(p, level, top, s, run[0]);
      RunsAreBounded(p, level, top, Do(p, s, run[0]), run[1..]);
    }
  }

  // ---- No run gets stuck -----------------------------------------------------------------

  /** parmake returns: the coordinator waits in pthread_join and every worker has exited. */
  ghost predicate Final(s: State) {
    s.coordinator.Joining? && forall w :: 0 <= w < |s.workers| ==> s.workers[w].Gone?
  }

  // Nothing is left to take anywhere, with the coordinator waiting.
  ghost predicate Quiet(s: State) {
    && s.coordinator.Waiting? && s.checked == [] && s.jobs == []
    && forall w :: 0 <= w < |s.workers| ==> s.workers[w].Idle?
  }

  // In such a state every rule would have been heard, "" included.
  lemma {:induction false} QuietHeard(p: Plan, level: map<string, nat>, top: nat, s: State, r: string)
    requires Inv(p, s) && Layered(p, level, top) && Quiet(s) && r in p.deps
    ensures r in s.heard
    decreases level[r]
  {
    forall d | d in p.deps[r] ensures d in s.heard && d in s.state && d in p.deps {
      assert d in p.deps;
      QuietHeard(p, level, top, s, d);
    }
    QuietStep(p, s, r);
  }

  lemma QuietStep(p: Plan, s: State, r: string)
    requires Inv(p, s) && Quiet(s) && r in p.deps
    requires forall d :: d in p.deps[r] ==> d in s.heard && d in s.state
    ensures r in s.heard
  {
    hide Counted, Justified, CheckedOnce, Coordinated, Draining;
    if d :| d in p.deps[r] && s.state[d] == -1 {
      assert r in p.users[d] && Bad(s.state, s.heard, d);
    } else {
      QuietPushed(p, s, r);
      assert Busy(r) !in s.workers;
    }
  }

  lemma QuietPushed(p: Plan, s: State, r: string)
    requires Inv(p, s) && Quiet(s) && r in p.deps
    requires forall d :: d in p.deps[r] ==> d in s.heard && d in s.state && s.state[d] != -1
    ensures r in s.pushed
  {
    hide TypeOk, WellFormed, Placed, Justified, CheckedOnce, Coordinated, Draining, Spread;
    assert Told(p, s.state, s.heard, s.coordinator, r) == p.deps[r] by {
      hide Counted;
      forall d | d in p.deps[r] ensures Reported(s.state, s.heard, s.coordinator, d, r) {
        assert s.state[d] != 1;
      }
    }
  }

  /** Until parmake can return, some thread can take a step. */
  lemma Progress(p: Plan, level: map<string, nat>, top: nat, s: State) returns (a: Action)
    requires Inv(p, s) && Layered(p, level, top) && !Final(s)
    ensures Enabled(s, a)
  {
    hide TypeOk, Counted, Settled, Placed, CheckedOnce, Justified, Spread, Layered;
    if s.coordinator.Telling? { return Tell; }
    if s.coordinator.Broke? { return Shut; }
    if w: nat :| w < |s.workers| && s.workers[w].Busy? { return Finish(w, true); }
    if w: nat :| w < |s.workers| && s.workers[w].Leaving? { return PassOn(w); }
    if s.coordinator.Waiting? && s.checked != [] { return Listen; }
    assert Leaving !in s.workers;
    if s.jobs != [] {
      var w: nat :| w < |s.workers| && s.workers[w].Idle?;
      return Take(w);
    }
    assert s.coordinator.Waiting?;
    forall w | 0 <= w < |s.workers| ensures s.workers[w].Idle? {
      assert s.workers[w] in s.workers;
    }
    assert GOAL in p.deps && GOAL !in s.heard;
    QuietHeard(p, level, top, s, GOAL);
    assert false;
  }

  // ---- The outcome -------------------------------------------------------------------------

  // A settled failure goes back to a rule that was queued, ran and failed.
  lemma {:induction false} FailureHasCause(p: Plan, level: map<string, nat>, top: nat, s: State, r: string)
    returns (culprit: string)
    requires Inv(p, s) && Layered(p, level, top) && r in p.deps && r in s.state && s.state[r] == -1
    ensures culprit in s.pushed && culprit in s.state && s.state[culprit] == -1
    decreases level[r]
  {
    hide Counted, Settled, Placed, CheckedOnce, Spread, Coordinated, Draining;
    if r in s.pushed {
      culprit := r;
    } else {
      var d :| d in p.deps[r] && Bad(s.state, s.heard, d);
      assert d in p.deps;
      culprit := FailureHasCause(p, level, top, s, d);
    }
  }

  // When "" succeeded, so did every rule, since each reaches "" through its users.
  lemma {:induction false} SuccessIsTotal(p: Plan, level: map<string, nat>, top: nat, s: State, r: string)
    requires Inv(p, s) && Layered(p, level, top) && r in p.deps
    requires GOAL in s.state && s.state[GOAL] == 0
    ensures r in s.pushed && r in s.state && s.state[r] == 0
    decreases top - level[r]
  {
    hide Counted, Settled, Placed, CheckedOnce, Spread, Coordinated, Draining, Blamed;
    if r != GOAL {
      assert r in p.users && p.users[r] != [];
      var q := p.users[r][0];
      assert q in p.users[r];
      SuccessIsTotal(p, level, top, s, q);
      PushedDeps(p, s, q, r);
    }
  }

  /** How parmake has gone once it returns. */
  ghost predicate Outcome(p: Plan, s: State) {
    && Final(s) && s.jobs == [Null]
    && GOAL in s.state && s.state[GOAL] in {0, -1}
    && (s.state[GOAL] == 0 ==> forall r :: r in p.deps ==> r in s.pushed && r in s.state && s.state[r] == 0)
    && (s.state[GOAL] == -1 ==> exists r :: r in s.pushed && r in s.state && s.state[r] == -1)
    && (forall r :: r in s.pushed ==> r in s.state && s.state[r] in {0, -1})
  }

  lemma FinalQueues(p: Plan, s: State)
    requires Inv(p, s) && Final(s)
    ensures s.jobs == [Null] && GOAL in s.heard && GOAL in s.state && s.state[GOAL] in {0, -1}
    ensures forall r :: r in s.pushed ==> r in s.state && s.state[r] in {0, -1}
  {
    hide CheckedOnce, Justified, Spread, Told;
    assert s.workers[0] in s.workers;
    assert forall x :: x in s.workers ==> x == Gone;
  }

  lemma FinalOutcome(p: Plan, level: map<string, nat>, top: nat, s: State)
    requires Inv(p, s) && Layered(p, level, top) && Final(s)
    ensures Outcome(p, s)
  {
    hide Inv, WellFormed, Layered, Final;
    FinalQueues(p, s);
    GoalInPlan(p, s);
    if s.state[GOAL] == 0 {
      forall r | r in p.deps ensures r in s.pushed && r in s.state && s.state[r] == 0 {
        SuccessIsTotal(p, level, top, s, r);
      }
    } else {
      var r := FailureHasCause(p, level, top, s, GOAL);
    }
  }

  /**
   * Every run that cannot go on has every thread stopped; every rule ever queued has been run
   * to its end; and "" ends with 0 exactly when every rule of the graph ran and succeeded,
   * and otherwise with -1 because some rule that was run failed.
   */
  lemma EveryRunEnds(p: Plan, level: map<string, nat>, top: nat, s: State, run: seq<Action>)
    requires Inv(p, s) && Layered(p, level, top) && IsRun(p, s, run)
    requires forall a :: !Enabled(After(p, s, run), a)
    ensures Outcome(p, After(p, s, run))
  {
    hide Inv, After, IsRun, WellFormed, Layered, Outcome;
    AfterKeepsInv(p, s, run);
    var t := After(p, s, run);
    if Final(t) {
      FinalOutcome(p, level, top, t);
    } else {
      var a := Progress(p, level, top, t);
    }
  }

  lemma GoalInPlan(p: Plan, s: State)
    requires Inv(p, s)
    ensures GOAL in p.deps
  {}
}
