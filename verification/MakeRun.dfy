/**
 * The run of parallel_make/parmake.c: a coordinator and any number of workers sharing the
 * queues `jobs` and `checked`, as a state machine over atomic steps. Every interleaving of
 * the steps and every outcome of the commands is a run.
 */
module MakeRun {
  import opened Basics
  import opened MakeRule
  import opened Seqs

  /**
   * What the threads share read-only: the dependencies of each rule and, as the graph's
   * antineighbours, the rules that depend on it, in any order.
   */
  datatype Plan = Plan(deps: map<string, set<string>>, users: map<string, seq<string>>)

  /** deps and users are converses, nothing depends on GOAL, and everything else has a user. */
  ghost predicate WellFormed(p: Plan) {
    && GOAL in p.deps
    && p.users.Keys == p.deps.Keys
    && (forall r, d :: r in p.deps && d in p.deps[r] ==> d in p.deps)
    && (forall d :: d in p.users ==> Distinct(p.users[d]))
    && (forall d, q :: d in p.users ==> (q in p.users[d] <==> q in p.deps && d in p.deps[q]))
    && (forall d :: d in p.users ==> (p.users[d] == [] <==> d == GOAL))
  }

  /** Dependencies lie on lower levels, all of them at most `top`: the graph has no cycle. */
  ghost predicate Layered(p: Plan, level: map<string, nat>, top: nat) {
    && level.Keys == p.deps.Keys
    && (forall r :: r in p.deps ==> level[r] <= top)
    && (forall r, d :: r in p.deps && d in p.deps[r] && d in level ==> level[d] < level[r])
  }

  datatype Job = Rule(name: string) | Null
  datatype Worker = Idle | Busy(rule: string) | Leaving | Gone
  datatype Coordinator = Waiting | Telling(rule: string, failed: bool, todo: seq<string>) | Broke | Joining

  /**
   * rule->state is 1 before a rule is checked, then 0 or -1. `pushed` logs the rules that
   * entered `jobs`, in order; `heard` holds those the coordinator has taken from `checked`.
   */
  datatype State = State(
    state: map<string, int>, satisfied: map<string, nat>,
    jobs: seq<Job>, checked: seq<string>,
    workers: seq<Worker>, coordinator: Coordinator,
    pushed: seq<string>, heard: set<string>)

  datatype Action =
    | Take(w: nat)             // queue_pull(jobs) by worker w
    | Finish(w: nat, ok: bool) // checkSatisfied returns, queue_push(checked, job)
    | PassOn(w: nat)           // a leaving worker pushes NULL back
    | Listen                   // queue_pull(checked) by the coordinator
    | Tell                     // one round of the loop over the parents
    | Shut                     // after the break: queue_push(jobs, NULL)

  // ---- Steps --------------------------------------------------------------------------

  ghost predicate TypeOk(p: Plan, s: State) {
    && s.state.Keys == p.deps.Keys && s.satisfied.Keys == p.deps.Keys
    && (forall r :: Rule(r) in s.jobs ==> r in p.deps)
    && (forall r :: r in s.checked ==> r in p.deps)
    && (forall r :: Busy(r) in s.workers ==> r in p.deps)
    && (s.coordinator.Telling? ==>
          && s.coordinator.rule in p.deps && s.coordinator.todo != []
          && forall q :: q in s.coordinator.todo ==> q in p.deps)
  }

  predicate Enabled(s: State, a: Action) {
    match a
    case Take(w) => w < |s.workers| && s.workers[w].Idle? && s.jobs != []
    case Finish(w, ok) => w < |s.workers| && s.workers[w].Busy?
    case PassOn(w) => w < |s.workers| && s.workers[w].Leaving?
    case Listen => s.coordinator.Waiting? && s.checked != []
    case Tell => s.coordinator.Telling?
    case Shut => s.coordinator.Broke?
  }

  function Start(w: nat, s: State): State
    requires Enabled(s, Take(w))
  {
    var job := s.jobs[0];
    s.(jobs := s.jobs[1..], workers := s.workers[w := if job.Null? then Leaving else Busy(job.name)])
  }

  function Complete(w: nat, ok: bool, s: State): State
    requires Enabled(s, Finish(w, ok))
  {
    var r := s.workers[w].rule;
    s.(state := s.state[r := if ok then 0 else -1], checked := s.checked + [r], workers := s.workers[w := Idle])
  }

  function Resume(r: string, failed: bool, todo: seq<string>): Coordinator {
    if todo == [] then Waiting else Telling(r, failed, todo)
  }

  function React(p: Plan, r: string, state: int): Coordinator
    requires r in p.users
  {
    if r == GOAL then Broke
    else if state == -1 then Resume(r, true, p.users[r])
    else if state == 0 then Resume(r, false, p.users[r])
    else Waiting
  }

  function Hear(p: Plan, s: State): State
    requires Enabled(s, Listen) && s.checked[0] in s.state && s.checked[0] in p.users
  {
    var r := s.checked[0];
    s.(checked := s.checked[1..], heard := s.heard + {r}, coordinator := React(p, r, s.state[r]))
  }

  function TellOne(p: Plan, s: State): State
    requires Enabled(s, Tell) && s.coordinator.todo != []
    requires s.coordinator.todo[0] in s.satisfied && s.coordinator.todo[0] in p.deps
  {
    var c := s.coordinator;
    var q := c.todo[0];
    var rest := Resume(c.rule, c.failed, c.todo[1..]);
    if c.failed then
      s.(state := s.state[q := -1], checked := s.checked + [q], coordinator := rest)
    else
      var n := s.satisfied[q] + 1;
      if n == |p.deps[q]| then
        s.(satisfied := s.satisfied[q := n], jobs := s.jobs + [Rule(q)], pushed := s.pushed + [q], coordinator := rest)
      else
        s.(satisfied := s.satisfied[q := n], coordinator := rest)
  }

  /** Lines 174-207: every state is 1, the leaves are queued once each in any order, `workers` threads start. */
  ghost predicate Init(p: Plan, s: State) {
    && s.state.Keys == p.deps.Keys && (forall r :: r in s.state ==> s.state[r] == 1)
    && s.satisfied.Keys == p.deps.Keys && (forall r :: r in s.satisfied ==> s.satisfied[r] == 0)
    && Distinct(s.pushed) && (forall r :: r in s.pushed <==> r in p.deps && p.deps[r] == {})
    && s.jobs == Rules(s.pushed) && s.checked == [] && s.heard == {}
    && |s.workers| > 0 && (forall w :: 0 <= w < |s.workers| ==> s.workers[w] == Idle)
    && s.coordinator == Waiting
  }

  function Rules(names: seq<string>): seq<Job> {
    seq(|names|, i requires 0 <= i < |names| => Rule(names[i]))
  }

  // ---- The invariant ----------------------------------------------------------------

  // q has still to be told how d went.
  ghost predicate Pending(c: Coordinator, d: string, q: string) {
    c.Telling? && c.rule == d && q in c.todo
  }

  // d has been heard with state 0, and q knows.
  ghost predicate Reported(state: map<string, int>, heard: set<string>, c: Coordinator, d: string, q: string) {
    d in heard && d in state && state[d] == 0 && !Pending(c, d, q)
  }

  // d has been heard with state -1.
  ghost predicate Bad(state: map<string, int>, heard: set<string>, d: string) {
    d in heard && d in state && state[d] == -1
  }

  // The dependencies of q that the coordinator has reported to q as done.
  ghost function Told(p: Plan, state: map<string, int>, heard: set<string>, c: Coordinator, q: string): set<string>
    requires q in p.deps
  {
    set d | d in p.deps[q] && Reported(state, heard, c, d, q)
  }

  /** A rule is queued once, exactly when all its dependencies have been heard with state 0 and reported. */
  ghost predicate Counted(p: Plan, state: map<string, int>, satisfied: map<string, nat>, heard: set<string>,
                          c: Coordinator, pushed: seq<string>) {
    && Distinct(pushed)
    && (forall r :: r in pushed ==> r in p.deps)
    && (forall q :: q in p.deps && q in satisfied ==> satisfied[q] == |Told(p, state, heard, c, q)|)
    && (forall q :: q in p.deps ==> (q in pushed <==> Told(p, state, heard, c, q) == p.deps[q]))
  }

  /** The state of a rule is 1 until it is put on `checked`, and 0 or -1 from then on. */
  ghost predicate Settled(state: map<string, int>, checked: seq<string>, heard: set<string>) {
    && (forall r :: r in state ==> state[r] in {1, 0, -1})
    && (forall r :: r in heard ==> r in state)
    && (forall r :: r in state ==> (state[r] == 1 <==> r !in checked && r !in heard))
  }

  /** A pushed rule that is not settled is at one place: once in `jobs` or with one worker. */
  ghost predicate Placed(state: map<string, int>, jobs: seq<Job>, workers: seq<Worker>, pushed: seq<string>) {
    && (forall r :: r in state ==> (r in pushed && state[r] == 1 <==> Rule(r) in jobs || Busy(r) in workers))
    && Single(jobs, workers)
  }

  ghost predicate Single(jobs: seq<Job>, workers: seq<Worker>) {
    && (forall i, j :: 0 <= i < j < |jobs| && jobs[i].Rule? ==> jobs[i] != jobs[j])
    && (forall i, j :: 0 <= i < j < |workers| && workers[i].Busy? ==> workers[i] != workers[j])
    && (forall r :: Rule(r) in jobs ==> Busy(r) !in workers)
  }

  /** A pushed rule is checked once and heard once. */
  ghost predicate CheckedOnce(pushed: seq<string>, checked: seq<string>, heard: set<string>) {
    && (forall r :: r in pushed && r in checked ==> r !in heard)
    && (forall i, j :: 0 <= i < j < |checked| && checked[i] in pushed ==> checked[i] != checked[j])
  }

  ghost predicate Blamed(p: Plan, state: map<string, int>, heard: set<string>, r: string) {
    exists d :: r in p.deps && d in p.deps[r] && Bad(state, heard, d)
  }

  /** A rule that settled without being queued failed, and a dependency of it is to blame. */
  ghost predicate Justified(p: Plan, state: map<string, int>, heard: set<string>, pushed: seq<string>) {
    forall r :: r in state && r !in pushed && state[r] != 1 ==> state[r] == -1 && Blamed(p, state, heard, r)
  }

  /** Failures spread to the users. */
  ghost predicate Spread(p: Plan, state: map<string, int>, heard: set<string>, c: Coordinator) {
    forall d, q :: d in p.users && q in p.users[d] && Bad(state, heard, d) && q in state ==>
      state[q] == -1 || Pending(c, d, q)
  }

  ghost predicate Coordinated(p: Plan, state: map<string, int>, heard: set<string>, c: Coordinator) {
    && (c.Telling? ==>
          && c.rule in heard && c.rule in p.users && c.rule in state && Distinct(c.todo) && c.todo != []
          && state[c.rule] == (if c.failed then -1 else 0)
          && forall q :: q in c.todo ==> q in p.users[c.rule])
    && (c.Waiting? || c.Telling? <==> GOAL !in heard)
  }

  /** NULL is queued only after the break, behind every rule, and from then on is queued or held by one worker. */
  ghost predicate Draining(jobs: seq<Job>, workers: seq<Worker>, c: Coordinator) {
    && |workers| > 0
    && (!c.Joining? ==> Null !in jobs && Leaving !in workers && Gone !in workers)
    && (c.Joining? ==>
          && (forall i :: 0 <= i < |jobs| - 1 ==> jobs[i].Rule?)
          && (if jobs == [] then Leaving in workers else jobs[|jobs| - 1] == Null && Leaving !in workers)
          && (Gone in workers || Leaving in workers ==> |jobs| <= 1)
          && (forall i, j :: 0 <= i < j < |workers| && workers[i].Leaving? ==> !workers[j].Leaving?))
  }

  ghost predicate Inv(p: Plan, s: State) {
    && WellFormed(p) && TypeOk(p, s)
    && Counted(p, s.state, s.satisfied, s.heard, s.coordinator, s.pushed)
    && Settled(s.state, s.checked, s.heard)
    && Placed(s.state, s.jobs, s.workers, s.pushed)
    && CheckedOnce(s.pushed, s.checked, s.heard)
    && Justified(p, s.state, s.heard, s.pushed)
    && Spread(p, s.state, s.heard, s.coordinator)
    && Coordinated(p, s.state, s.heard, s.coordinator)
    && Draining(s.jobs, s.workers, s.coordinator)
  }

  ghost function Do(p: Plan, s: State, a: Action): State
    requires Inv(p, s) && Enabled(s, a)
  {
    match a
    case Take(w) => Start(w, s)
    case Finish(w, ok) => Complete(w, ok, s)
    case PassOn(w) => s.(jobs := s.jobs + [Null], workers := s.workers[w := Gone])
    case Listen => Hear(p, s)
    case Tell => TellOne(p, s)
    case Shut => s.(jobs := s.jobs + [Null], coordinator := Joining)
  }

  // ---- Every step keeps the invariant -------------------------------------------------

  lemma PlacedTake(state: map<string, int>, jobs: seq<Job>, workers: seq<Worker>, pushed: seq<string>, w: nat)
    requires Placed(state, jobs, workers, pushed)
    requires w < |workers| && workers[w].Idle? && jobs != []
    ensures Placed(state, jobs[1..], workers[w := if jobs[0].Null? then Leaving else Busy(jobs[0].name)], pushed)
  {
    var after := workers[w := if jobs[0].Null? then Leaving else Busy(jobs[0].name)];
    SingleTake(jobs, workers, w, after[w]);
    hide Single;
    forall r | r in state
      ensures Rule(r) in jobs || Busy(r) in workers <==> Rule(r) in jobs[1..] || Busy(r) in after
    {
      BusyAfter(workers, w, after[w], r);
      assert jobs == [jobs[0]] + jobs[1..];
    }
  }

  lemma SingleTake(jobs: seq<Job>, workers: seq<Worker>, w: nat, x: Worker)
    requires Single(jobs, workers) && w < |workers| && jobs != []
    requires x == if jobs[0].Null? then Leaving else Busy(jobs[0].name)
    ensures Single(jobs[1..], workers[w := x])
  {
    var after := workers[w := x];
    assert jobs[0] in jobs;
    assert forall k :: 0 <= k < |workers| ==> workers[k] in workers;
    assert forall k :: 0 <= k < |jobs| - 1 ==> jobs[1..][k] == jobs[k + 1];
    forall r | Rule(r) in jobs[1..] ensures Busy(r) !in after {
      BusyAfter(workers, w, x, r);
      var k :| 0 <= k < |jobs| - 1 && jobs[1..][k] == Rule(r);
      assert jobs[k + 1] == Rule(r) && jobs[k + 1] != jobs[0];
    }
  }

  // Which rules are with a worker after worker w changes to x.
  lemma BusyAfter(workers: seq<Worker>, w: nat, x: Worker, r: string)
    requires w < |workers|
    ensures Busy(r) in workers[w := x] ==> x == Busy(r) || Busy(r) in workers
    ensures x == Busy(r) ==> Busy(r) in workers[w := x]
    ensures Busy(r) in workers && workers[w] != Busy(r) ==> Busy(r) in workers[w := x]
  {
    var after := workers[w := x];
    assert after[w] == x;
    if Busy(r) in workers && workers[w] != Busy(r) {
      var k :| 0 <= k < |workers| && workers[k] == Busy(r);
      assert after[k] == Busy(r);
    }
  }

  lemma DrainingTake(jobs: seq<Job>, workers: seq<Worker>, c: Coordinator, w: nat)
    requires Draining(jobs, workers, c)
    requires w < |workers| && workers[w].Idle? && jobs != []
    ensures Draining(jobs[1..], workers[w := if jobs[0].Null? then Leaving else Busy(jobs[0].name)], c)
  {
    var after := workers[w := if jobs[0].Null? then Leaving else Busy(jobs[0].name)];
    assert after[w] != Idle;
    assert forall x :: x in after ==> x == after[w] || x in workers;
    if c.Joining? {
      assert jobs[0].Null? <==> |jobs| == 1;
      assert forall k :: 0 <= k < |workers| && k != w ==> after[k] == workers[k];
      assert forall k :: 0 <= k < |workers| ==> workers[k] in workers;
    }
  }

  lemma KeepsTake(p: Plan, s: State, w: nat)
    requires Inv(p, s) && Enabled(s, Take(w))
    ensures Inv(p, Do(p, s, Take(w)))
  {
    hide Counted, Settled, Placed, CheckedOnce, Justified, Spread, Coordinated, Draining, WellFormed;
    var t := Do(p, s, Take(w));
    PlacedTake(s.state, s.jobs, s.workers, s.pushed, w);
    DrainingTake(s.jobs, s.workers, s.coordinator, w);
    assert s.jobs == [s.jobs[0]] + t.jobs;
  }

  lemma CountedSame(p: Plan, state: map<string, int>, heard: set<string>, c: Coordinator,
                    state': map<string, int>, heard': set<string>, c': Coordinator,
                    satisfied: map<string, nat>, pushed: seq<string>)
    requires Counted(p, state, satisfied, heard, c, pushed)
    requires forall q, d :: q in p.deps && d in p.deps[q] ==>
      (Reported(state, heard, c, d, q) <==> Reported(state', heard', c', d, q))
    ensures Counted(p, state', satisfied, heard', c', pushed)
  {
    hide Reported;
    forall q | q in p.deps ensures Told(p, state, heard, c, q) == Told(p, state', heard', c', q) {}
  }

  lemma BusyRule(s: State, w: nat)
    requires Settled(s.state, s.checked, s.heard) && Placed(s.state, s.jobs, s.workers, s.pushed)
    requires w < |s.workers| && s.workers[w].Busy? && s.workers[w].rule in s.state
    ensures var r := s.workers[w].rule;
      r in s.pushed && s.state[r] == 1 && r !in s.heard && r !in s.checked
  {
    assert s.workers[w] in s.workers;
  }

  lemma PlacedFinish(state: map<string, int>, jobs: seq<Job>, workers: seq<Worker>, pushed: seq<string>, w: nat, v: int)
    requires Placed(state, jobs, workers, pushed)
    requires w < |workers| && workers[w].Busy? && workers[w].rule in state && v != 1
    ensures Placed(state[workers[w].rule := v], jobs, workers[w := Idle], pushed)
  {
    var r := workers[w].rule;
    var after := workers[w := Idle];
    assert workers[w] in workers;
    forall x | x in state ensures Busy(x) in after <==> Busy(x) in workers && x != r {
      BusyAfter(workers, w, Idle, x);
      if Busy(x) in after {
        var k :| 0 <= k < |after| && after[k] == Busy(x);
        assert k != w && workers[k] == Busy(x);
      }
    }
    forall x | Rule(x) in jobs ensures Busy(x) !in after {
      BusyAfter(workers, w, Idle, x);
    }
  }

  lemma KeepsFinish(p: Plan, s: State, w: nat, ok: bool)
    requires Inv(p, s) && Enabled(s, Finish(w, ok))
    ensures Inv(p, Do(p, s, Finish(w, ok)))
  {
    hide Counted, Placed, WellFormed, Draining;
    var t := Do(p, s, Finish(w, ok));
    var r := s.workers[w].rule;
    assert s.workers[w] in s.workers;
    BusyRule(s, w);
    PlacedFinish(s.state, s.jobs, s.workers, s.pushed, w, t.state[r]);
    CountedSame(p, s.state, s.heard, s.coordinator, t.state, t.heard, t.coordinator, s.satisfied, s.pushed);
    DrainingWorker(s.jobs, s.workers, s.coordinator, w);
    forall x | Blamed(p, s.state, s.heard, x) ensures Blamed(p, t.state, t.heard, x) {
      var d :| x in p.deps && d in p.deps[x] && Bad(s.state, s.heard, d);
      assert Bad(t.state, t.heard, d);
    }
    assert Justified(p, t.state, t.heard, t.pushed);
    assert TypeOk(p, t);
  }

  // A busy worker becomes idle.
  lemma DrainingWorker(jobs: seq<Job>, workers: seq<Worker>, c: Coordinator, w: nat)
    requires Draining(jobs, workers, c) && w < |workers| && workers[w].Busy?
    ensures Draining(jobs, workers[w := Idle], c)
  {
    var after := workers[w := Idle];
    forall x | x != Idle && x != workers[w] ensures x in workers <==> x in after {
      if x in workers {
        var k :| 0 <= k < |workers| && workers[k] == x;
        assert after[k] == x;
      }
    }
  }

  lemma KeepsPassOn(p: Plan, s: State, w: nat)
    requires Inv(p, s) && Enabled(s, PassOn(w))
    ensures Inv(p, Do(p, s, PassOn(w)))
  {
    hide Counted, Settled, CheckedOnce, Justified, Spread, Coordinated, WellFormed, Placed;
    var t := Do(p, s, PassOn(w));
    assert s.workers[w] in s.workers;
    assert s.jobs == [] && t.jobs == [Null];
    PlacedPassOn(s.state, s.jobs, s.workers, s.pushed, w);
    assert forall k :: 0 <= k < |s.workers| && k != w ==> t.workers[k] == s.workers[k];
  }

  lemma PlacedPassOn(state: map<string, int>, jobs: seq<Job>, workers: seq<Worker>, pushed: seq<string>, w: nat)
    requires Placed(state, jobs, workers, pushed) && w < |workers| && workers[w].Leaving?
    ensures Placed(state, jobs + [Null], workers[w := Gone], pushed)
  {
    forall x ensures Busy(x) in workers[w := Gone] <==> Busy(x) in workers {
      BusyAfter(workers, w, Gone, x);
    }
  }

  lemma KeepsShut(p: Plan, s: State)
    requires Inv(p, s) && Enabled(s, Shut)
    ensures Inv(p, Do(p, s, Shut))
  {
    hide Counted, Settled, CheckedOnce, Justified, WellFormed;
    var t := Do(p, s, Shut);
    CountedSame(p, s.state, s.heard, s.coordinator, t.state, t.heard, t.coordinator, s.satisfied, s.pushed);
    assert forall i :: 0 <= i < |s.jobs| ==> s.jobs[i] in s.jobs;
    assert forall i :: 0 <= i < |s.workers| ==> s.workers[i] in s.workers;
  }

  // The rule at the head of `checked` is settled; if it was heard before, it failed unqueued.
  lemma HeadOfChecked(p: Plan, s: State)
    requires Inv(p, s) && s.checked != []
    ensures var r := s.checked[0];
      && r in s.state && r in p.users && s.state[r] in {0, -1}
      && (r in s.heard ==> s.state[r] == -1)
      && (r in s.pushed ==> r !in s.checked[1..])
  {
    hide Counted, Placed, Spread, Coordinated, Draining, Blamed;
    var r := s.checked[0];
    assert r in s.checked;
    if r in s.checked[1..] {
      var k :| 0 <= k < |s.checked| - 1 && s.checked[1..][k] == r;
      assert s.checked[k + 1] == r;
    }
  }

  // Hearing r changes no report: either its users are still pending, or it failed.
  lemma ReportedListen(p: Plan, state: map<string, int>, heard: set<string>, r: string, c: Coordinator, q: string, d: string)
    requires WellFormed(p) && q in p.deps && d in p.deps[q] && r in p.users && r in state
    requires r in heard ==> state[r] == -1
    requires c == React(p, r, state[r])
    ensures Reported(state, heard, Waiting, d, q) <==> Reported(state, heard + {r}, c, d, q)
  {
    assert q in p.users[d];
  }

  lemma CheckedListen(state: map<string, int>, pushed: seq<string>, checked: seq<string>, heard: set<string>)
    requires CheckedOnce(pushed, checked, heard) && Settled(state, checked, heard)
    requires checked != [] && checked[0] in state
    requires checked[0] in pushed ==> checked[0] !in checked[1..]
    ensures CheckedOnce(pushed, checked[1..], heard + {checked[0]})
    ensures Settled(state, checked[1..], heard + {checked[0]})
  {
    assert checked == [checked[0]] + checked[1..];
  }

  lemma JustifiedMore(p: Plan, state: map<string, int>, heard: set<string>, heard': set<string>, pushed: seq<string>)
    requires Justified(p, state, heard, pushed) && heard <= heard'
    ensures Justified(p, state, heard', pushed)
  {
    forall x | Blamed(p, state, heard, x) ensures Blamed(p, state, heard', x) {
      var d :| x in p.deps && d in p.deps[x] && Bad(state, heard, d);
      assert Bad(state, heard', d);
    }
  }

  lemma CountedListen(p: Plan, state: map<string, int>, satisfied: map<string, nat>, heard: set<string>,
                      r: string, c: Coordinator, pushed: seq<string>)
    requires WellFormed(p) && Counted(p, state, satisfied, heard, Waiting, pushed)
    requires r in state && r in p.users && (r in heard ==> state[r] == -1) && c == React(p, r, state[r])
    ensures Counted(p, state, satisfied, heard + {r}, c, pushed)
  {
    hide WellFormed, Counted, Reported, React;
    forall q, d | q in p.deps && d in p.deps[q]
      ensures Reported(state, heard, Waiting, d, q) <==> Reported(state, heard + {r}, c, d, q)
    {
      ReportedListen(p, state, heard, r, c, q, d);
    }
    CountedSame(p, state, heard, Waiting, state, heard + {r}, c, satisfied, pushed);
  }

  lemma CoordinatedListen(p: Plan, state: map<string, int>, heard: set<string>, r: string, c: Coordinator)
    requires WellFormed(p) && Coordinated(p, state, heard, Waiting)
    requires r in state && r in p.users && c == React(p, r, state[r])
    ensures Coordinated(p, state, heard + {r}, c)
  {}

  lemma DrainingSame(jobs: seq<Job>, workers: seq<Worker>, c: Coordinator, c': Coordinator)
    requires Draining(jobs, workers, c) && !c.Joining? && !c'.Joining?
    ensures Draining(jobs, workers, c')
  {}

  lemma TypeOkListen(p: Plan, s: State)
    requires WellFormed(p) && TypeOk(p, s) && Enabled(s, Listen)
    ensures TypeOk(p, Hear(p, s))
  {
    var r := s.checked[0];
    assert s.checked == [r] + s.checked[1..];
    assert forall q :: q in p.users[r] ==> q in p.deps;
    hide WellFormed;
  }

  lemma KeepsListen(p: Plan, s: State)
    requires Inv(p, s) && Enabled(s, Listen)
    ensures Inv(p, Do(p, s, Listen))
  {
    hide TypeOk, WellFormed, Counted, Placed, CheckedOnce, Settled, Justified, Spread, Coordinated, Draining, React;
    HeadOfChecked(p, s);
    var r := s.checked[0];
    var c := React(p, r, s.state[r]);
    NotJoining(p, r, s.state[r]);
    CountedListen(p, s.state, s.satisfied, s.heard, r, c, s.pushed);
    CheckedListen(s.state, s.pushed, s.checked, s.heard);
    JustifiedMore(p, s.state, s.heard, s.heard + {r}, s.pushed);
    SpreadListen(p, s.state, s.heard, r, c);
    CoordinatedListen(p, s.state, s.heard, r, c);
    DrainingSame(s.jobs, s.workers, s.coordinator, c);
    TypeOkListen(p, s);
  }

  lemma NotJoining(p: Plan, r: string, v: int)
    requires r in p.users
    ensures !React(p, r, v).Joining?
  {}

  lemma SpreadListen(p: Plan, state: map<string, int>, heard: set<string>, r: string, c: Coordinator)
    requires WellFormed(p) && r in p.users && r in state
    requires Spread(p, state, heard, Waiting)
    requires c == React(p, r, state[r])
    ensures Spread(p, state, heard + {r}, c)
  {}

  // ---- Telling a parent ----------------------------------------------------------------

  // A rule with an unreported dependency has not been queued.
  lemma UnreportedNotPushed(p: Plan, state: map<string, int>, satisfied: map<string, nat>, heard: set<string>,
                            c: Coordinator, pushed: seq<string>, q: string, d: string)
    requires Counted(p, state, satisfied, heard, c, pushed)
    requires q in p.deps && d in p.deps[q] && !Reported(state, heard, c, d, q)
    ensures q !in pushed
  {
    hide Reported;
    assert d !in Told(p, state, heard, c, q);
  }

  // What is known of the parent q about to be told about d.
  lemma TellFacts(p: Plan, s: State)
    requires Inv(p, s) && s.coordinator.Telling?
    ensures s.coordinator.todo != []
    ensures var c := s.coordinator; var q := c.todo[0];
      && q in s.state && q in s.satisfied && q in p.deps && c.rule in p.deps[q]
      && c.rule in s.heard && c.rule in s.state && s.state[c.rule] == (if c.failed then -1 else 0)
      && q !in c.todo[1..] && q !in s.pushed && s.state[q] in {1, -1} && c.rule != GOAL && GOAL !in s.heard
  {
    hide Placed, CheckedOnce, Spread, Draining, Counted, Blamed;
    var c := s.coordinator;
    var q := c.todo[0];
    assert q in c.todo;
    assert q in p.users[c.rule];
    UnreportedNotPushed(p, s.state, s.satisfied, s.heard, c, s.pushed, q, c.rule);
    assert forall k :: 0 <= k < |c.todo| - 1 ==> c.todo[1..][k] == c.todo[k + 1];
  }

  lemma ReportedTell(state: map<string, int>, heard: set<string>, c: Coordinator, q: string, d: string)
    requires c.Telling? && c.todo != [] && c.rule in heard && c.rule in state
    requires c.todo[0] !in c.todo[1..] && state[c.rule] == (if c.failed then -1 else 0)
    ensures Reported(state, heard, Resume(c.rule, c.failed, c.todo[1..]), d, q) <==>
      Reported(state, heard, c, d, q) || (d == c.rule && q == c.todo[0] && !c.failed)
  {
    assert c.todo == [c.todo[0]] + c.todo[1..];
  }

  lemma CoordinatedTell(p: Plan, state: map<string, int>, heard: set<string>, c: Coordinator)
    requires Coordinated(p, state, heard, c) && c.Telling?
    ensures Coordinated(p, state, heard, Resume(c.rule, c.failed, c.todo[1..]))
  {
    var rest := c.todo[1..];
    assert forall k :: 0 <= k < |rest| ==> rest[k] == c.todo[k + 1];
  }

  // A report of success to q adds one dependency to those q knows of.
  lemma ToldTell(p: Plan, state: map<string, int>, heard: set<string>, c: Coordinator, x: string)
    requires c.Telling? && c.todo != [] && c.rule in heard && c.rule in state
    requires c.todo[0] !in c.todo[1..] && !c.failed && state[c.rule] == 0
    requires x in p.deps && c.todo[0] in p.deps && c.rule in p.deps[c.todo[0]]
    ensures var c' := Resume(c.rule, c.failed, c.todo[1..]);
      && Told(p, state, heard, c', x) ==
         Told(p, state, heard, c, x) + (if x == c.todo[0] then {c.rule} else {})
      && c.rule !in Told(p, state, heard, c, c.todo[0])
  {
    hide Reported, Resume;
    var c' := Resume(c.rule, c.failed, c.todo[1..]);
    forall d | d in p.deps[x]
      ensures Reported(state, heard, c', d, x) <==> Reported(state, heard, c, d, x) || (d == c.rule && x == c.todo[0])
    {
      ReportedTell(state, heard, c, x, d);
    }
    NotYetReported(state, heard, c);
  }

  lemma CountedTellSuccess(p: Plan, state: map<string, int>, satisfied: map<string, nat>, heard: set<string>,
                           c: Coordinator, pushed: seq<string>, q: string, n: nat)
    requires Counted(p, state, satisfied, heard, c, pushed)
    requires c.Telling? && c.todo != [] && q == c.todo[0] && c.rule in heard && c.rule in state
    requires q !in c.todo[1..] && !c.failed && state[c.rule] == 0
    requires q in satisfied && q in p.deps && c.rule in p.deps[q] && q !in pushed && n == satisfied[q] + 1
    ensures n == |p.deps[q]| ==> forall d :: d in p.deps[q] ==> d in heard && d in state && state[d] == 0
    ensures Counted(p, state, satisfied[q := n], heard, Resume(c.rule, c.failed, c.todo[1..]),
                    if n == |p.deps[q]| then pushed + [q] else pushed)
  {
    hide Reported, Told, Resume, Distinct;
    var c' := Resume(c.rule, c.failed, c.todo[1..]);
    forall x | x in p.deps && x != q
      ensures Told(p, state, heard, c', x) == Told(p, state, heard, c, x)
    {
      ToldTell(p, state, heard, c, x);
    }
    ToldTell(p, state, heard, c, q);
    ToldSubset(p, state, heard, c', q);
    SubsetSize(Told(p, state, heard, c', q), p.deps[q]);
    DistinctAppend(pushed, q);
  }

  lemma DistinctAppend<T>(s: seq<T>, x: T)
    requires Distinct(s) && x !in s
    ensures Distinct(s + [x])
  {}

  lemma ToldSubset(p: Plan, state: map<string, int>, heard: set<string>, c: Coordinator, q: string)
    requires q in p.deps
    ensures Told(p, state, heard, c, q) <= p.deps[q]
    ensures forall d :: d in Told(p, state, heard, c, q) ==> d in heard && d in state && state[d] == 0
  {}

  lemma NotYetReported(state: map<string, int>, heard: set<string>, c: Coordinator)
    requires c.Telling? && c.todo != []
    ensures !Reported(state, heard, c, c.rule, c.todo[0])
  {}

  // A rule all of whose dependencies were heard with state 0, and that is not queued, has state 1.
  lemma ReadyIsFresh(p: Plan, state: map<string, int>, heard: set<string>, pushed: seq<string>, q: string)
    requires Justified(p, state, heard, pushed) && q in state && q !in pushed && q in p.deps
    requires forall d :: d in p.deps[q] ==> d in heard && d in state && state[d] == 0
    ensures state[q] == 1
  {}

  lemma PlacedPush(state: map<string, int>, jobs: seq<Job>, workers: seq<Worker>, pushed: seq<string>, q: string)
    requires Placed(state, jobs, workers, pushed) && q in state && state[q] == 1 && q !in pushed
    ensures Placed(state, jobs + [Rule(q)], workers, pushed + [q])
  {
    assert Rule(q) !in jobs && Busy(q) !in workers;
  }

  lemma JustifiedPush(p: Plan, state: map<string, int>, heard: set<string>, pushed: seq<string>, q: string)
    requires Justified(p, state, heard, pushed)
    ensures Justified(p, state, heard, pushed + [q])
  {
    hide Blamed;
  }

  lemma CheckedOncePush(state: map<string, int>, pushed: seq<string>, checked: seq<string>, heard: set<string>, q: string)
    requires CheckedOnce(pushed, checked, heard) && Settled(state, checked, heard) && q in state && state[q] == 1
    ensures CheckedOnce(pushed + [q], checked, heard)
  {}

  // Nothing spreads from d when it succeeded, and q has failed when it is told d failed.
  lemma SpreadTell(p: Plan, state: map<string, int>, heard: set<string>, c: Coordinator)
    requires Spread(p, state, heard, c) && c.Telling? && c.todo != [] && c.rule in state
    requires !c.failed ==> state[c.rule] == 0
    requires c.failed ==> c.todo[0] in state && state[c.todo[0]] == -1
    ensures Spread(p, state, heard, Resume(c.rule, c.failed, c.todo[1..]))
  {
    assert c.todo == [c.todo[0]] + c.todo[1..];
  }

  lemma NotJoiningResume(r: string, failed: bool, todo: seq<string>)
    ensures !Resume(r, failed, todo).Joining?
  {}

  lemma DrainingPush(jobs: seq<Job>, workers: seq<Worker>, c: Coordinator, q: string)
    requires Draining(jobs, workers, c) && !c.Joining?
    ensures Draining(jobs + [Rule(q)], workers, c)
  {}

  lemma TypeOkTell(p: Plan, s: State)
    requires TypeOk(p, s) && Enabled(s, Tell) && s.coordinator.todo[0] in s.satisfied
    ensures TypeOk(p, TellOne(p, s))
  {
    assert s.coordinator.todo == [s.coordinator.todo[0]] + s.coordinator.todo[1..];
    assert s.coordinator.todo[0] in s.coordinator.todo;
  }

  lemma CountedTellFailure(p: Plan, state: map<string, int>, satisfied: map<string, nat>, heard: set<string>,
                           c: Coordinator, pushed: seq<string>)
    requires Counted(p, state, satisfied, heard, c, pushed)
    requires c.Telling? && c.todo != [] && c.failed && c.rule in heard && c.rule in state && state[c.rule] == -1
    requires c.todo[0] !in c.todo[1..] && c.todo[0] in state && state[c.todo[0]] in {1, -1}
    ensures Counted(p, state[c.todo[0] := -1], satisfied, heard, Resume(c.rule, c.failed, c.todo[1..]), pushed)
  {
    hide Counted, Reported;
    var c' := Resume(c.rule, c.failed, c.todo[1..]);
    forall q, d | q in p.deps && d in p.deps[q]
      ensures Reported(state, heard, c, d, q) <==> Reported(state[c.todo[0] := -1], heard, c', d, q)
    {
      ReportedTell(state, heard, c, q, d);
      ReportedMark(state, heard, c', d, q, c.todo[0]);
    }
    CountedSame(p, state, heard, c, state[c.todo[0] := -1], heard, c', satisfied, pushed);
  }

  lemma ReportedMark(state: map<string, int>, heard: set<string>, c: Coordinator, d: string, q: string, x: string)
    requires x in state && state[x] in {1, -1}
    ensures Reported(state, heard, c, d, q) <==> Reported(state[x := -1], heard, c, d, q)
  {}

  lemma SettledTellFailure(state: map<string, int>, pushed: seq<string>, checked: seq<string>, heard: set<string>, q: string)
    requires Settled(state, checked, heard) && CheckedOnce(pushed, checked, heard) && q in state && q !in pushed
    ensures Settled(state[q := -1], checked + [q], heard)
    ensures CheckedOnce(pushed, checked + [q], heard)
  {}

  lemma PlacedTellFailure(state: map<string, int>, jobs: seq<Job>, workers: seq<Worker>, pushed: seq<string>, q: string)
    requires Placed(state, jobs, workers, pushed) && q in state && q !in pushed
    ensures Placed(state[q := -1], jobs, workers, pushed)
  {
    hide Single;
  }

  lemma JustifiedTellFailure(p: Plan, state: map<string, int>, heard: set<string>, pushed: seq<string>, d: string, q: string)
    requires Justified(p, state, heard, pushed) && q in p.deps && d in p.deps[q] && Bad(state, heard, d)
    ensures Justified(p, state[q := -1], heard, pushed)
  {
    assert Bad(state[q := -1], heard, d);
    forall x | Blamed(p, state, heard, x) ensures Blamed(p, state[q := -1], heard, x) {
      var y :| x in p.deps && y in p.deps[x] && Bad(state, heard, y);
      assert Bad(state[q := -1], heard, y);
    }
  }

  lemma SpreadMark(p: Plan, state: map<string, int>, checked: seq<string>, heard: set<string>, c: Coordinator, q: string)
    requires Spread(p, state, heard, c) && Settled(state, checked, heard) && q in state && state[q] in {1, -1}
    ensures Spread(p, state[q := -1], heard, c)
  {
    forall d ensures Bad(state[q := -1], heard, d) ==> Bad(state, heard, d) {}
  }

  lemma CoordinatedMark(p: Plan, state: map<string, int>, heard: set<string>, c: Coordinator, q: string)
    requires Coordinated(p, state, heard, c) && c.Telling? && c.failed && q in state
    ensures Coordinated(p, state[q := -1], heard, c)
  {}

  lemma KeepsTell(p: Plan, s: State)
    requires Inv(p, s) && Enabled(s, Tell)
    ensures Inv(p, Do(p, s, Tell))
  {
    hide TypeOk, WellFormed, Counted, Placed, CheckedOnce, Settled, Justified, Spread, Coordinated, Draining, Resume;
    TellFacts(p, s);
    var c := s.coordinator;
    var q := c.todo[0];
    var c' := Resume(c.rule, c.failed, c.todo[1..]);
    NotJoiningResume(c.rule, c.failed, c.todo[1..]);
    DrainingSame(s.jobs, s.workers, c, c');
    TypeOkTell(p, s);
    if c.failed {
      // q was not queued, so marking it as failed changes no report and no place
      CountedTellFailure(p, s.state, s.satisfied, s.heard, c, s.pushed);
      SettledTellFailure(s.state, s.pushed, s.checked, s.heard, q);
      PlacedTellFailure(s.state, s.jobs, s.workers, s.pushed, q);
      JustifiedTellFailure(p, s.state, s.heard, s.pushed, c.rule, q);
      SpreadMark(p, s.state, s.checked, s.heard, c, q);
      SpreadTell(p, s.state[q := -1], s.heard, c);
      CoordinatedMark(p, s.state, s.heard, c, q);
      CoordinatedTell(p, s.state[q := -1], s.heard, c);
    } else {
      var n := s.satisfied[q] + 1;
      CountedTellSuccess(p, s.state, s.satisfied, s.heard, c, s.pushed, q, n);
      CoordinatedTell(p, s.state, s.heard, c);
      SpreadTell(p, s.state, s.heard, c);
      if n == |p.deps[q]| {
        ReadyIsFresh(p, s.state, s.heard, s.pushed, q);
        PlacedPush(s.state, s.jobs, s.workers, s.pushed, q);
        JustifiedPush(p, s.state, s.heard, s.pushed, q);
        CheckedOncePush(s.state, s.pushed, s.checked, s.heard, q);
        DrainingPush(s.jobs, s.workers, c', q);
      }
    }
  }

  lemma KeepsInv(p: Plan, s: State, a: Action)
    requires Inv(p, s) && Enabled(s, a)
    ensures Inv(p, Do(p, s, a))
  {
    hide Inv, Do;
    match a
    case Take(w) => KeepsTake(p, s, w);
    case Finish(w, ok) => KeepsFinish(p, s, w, ok);
    case PassOn(w) => KeepsPassOn(p, s, w);
    case Listen => KeepsListen(p, s);
    case Tell => KeepsTell(p, s);
    case Shut => KeepsShut(p, s);
  }
}
