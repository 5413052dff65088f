/**
 * What the outcomes of the commands make of a run of parallel_make/parmake.c: each rule ends
 * as its commands did, nothing is queued above a failure, and so does the whole run.
 */
module MakeResult {
  import opened MakeRule
  import opened MakeRun
  import opened MakeOutcome
  import opened Seqs

  /** A rule whose commands a worker has run, and whether they succeeded. */
  datatype Done = Done(rule: string, ok: bool)

  function DoneBy(s: State, a: Action): seq<Done>
    requires Enabled(s, a)
  {
    if a.Finish? then [Done(s.workers[a.w].rule, a.ok)] else []
  }

  /** The rules that finish along a run, in order, each with the outcome of its Finish. */
  ghost function Log(p: Plan, s: State, run: seq<Action>): seq<Done>
    requires Inv(p, s) && IsRun(p, s, run)
    decreases |run|
  {
    if run == [] then [] else LogFirst(p, s, run)
  }

  ghost function LogFirst(p: Plan, s: State, run: seq<Action>): seq<Done>
    requires Inv(p, s) && run != [] && Enabled(s, run[0]) && IsRunAfter(p, s, run)
    decreases |run|, 0
  {
    KeepsInv(p, s, run[0]);
    DoneBy(s, run[0]) + Log(p, Do(p, s, run[0]), run[1..])
  }

  /** A rule that entered `jobs` and has been checked. */
  ghost predicate Checked(s: State, r: string) {
    r in s.pushed && r in s.state && s.state[r] != 1
  }

  /** A step leaves the checked rules as they are, and its Finish adds one. */
  lemma StepChecks(p: Plan, s: State, a: Action)
    requires Inv(p, s) && Enabled(s, a)
    ensures forall r :: Checked(s, r) ==> Checked(Do(p, s, a), r) && Do(p, s, a).state[r] == s.state[r]
    ensures a.Finish? ==>
      ghost var r := s.workers[a.w].rule;
      Checked(Do(p, s, a), r) && Do(p, s, a).state[r] == if a.ok then 0 else -1
    ensures forall r :: Checked(Do(p, s, a), r) ==> Checked(s, r) || (a.Finish? && r == s.workers[a.w].rule)
  {
    if a.Finish? {
      BusyUnchecked(p, s, a.w);
      hide Inv, Checked;
      FinishChecks(s, a.w, a.ok);
    } else if a.Tell? {
      ToldUnchecked(p, s);
      hide Inv, Checked;
      TellChecks(p, s);
    } else {
      hide Inv;
      OthersCheckNothing(p, s, a);
    }
  }

  // What Do has to find of a step that neither finishes a rule nor tells one.
  lemma OthersCheckNothing(p: Plan, s: State, a: Action)
    requires Inv(p, s) && Enabled(s, a) && !a.Finish? && !a.Tell?
    ensures Do(p, s, a).state == s.state && Do(p, s, a).pushed == s.pushed
  {
    hide Counted, Settled, CheckedOnce, Justified, Spread, Coordinated, Draining, WellFormed, Placed, TypeOk;
  }

  lemma FinishChecks(s: State, w: nat, ok: bool)
    requires Enabled(s, Finish(w, ok)) && Unchecked(s, s.workers[w].rule)
    ensures ghost var r, t := s.workers[w].rule, Complete(w, ok, s);
            && Checked(t, r) && t.state[r] == (if ok then 0 else -1)
            && (forall q :: Checked(t, q) ==> Checked(s, q) || q == r)
            && (forall q :: Checked(s, q) ==> Checked(t, q) && t.state[q] == s.state[q])
  {}

  // Queued, and not checked yet.
  ghost predicate Unchecked(s: State, r: string) {
    r in s.pushed && r in s.state && s.state[r] == 1
  }

  lemma BusyUnchecked(p: Plan, s: State, w: nat)
    requires Inv(p, s) && w < |s.workers| && s.workers[w].Busy?
    ensures Unchecked(s, s.workers[w].rule)
  {
    hide Counted, Settled, CheckedOnce, Justified, Spread, Coordinated, Draining, WellFormed;
    assert s.workers[w] in s.workers;
  }

  // A rule told of a failure has not been queued; one told of its last success has not been checked either.
  ghost predicate MayBeTold(p: Plan, s: State, q: string) {
    && q in p.deps && q in s.state && q in s.satisfied && q !in s.pushed
    && (s.coordinator.Telling? && !s.coordinator.failed && s.satisfied[q] + 1 == |p.deps[q]| ==> s.state[q] == 1)
  }

  lemma ToldUnchecked(p: Plan, s: State)
    requires Inv(p, s) && s.coordinator.Telling?
    ensures s.coordinator.todo != [] && MayBeTold(p, s, s.coordinator.todo[0])
  {
    hide TypeOk, WellFormed, Counted, Placed, CheckedOnce, Settled, Justified, Spread, Coordinated, Draining, Resume;
    TellFacts(p, s);
    var c := s.coordinator;
    var q := c.todo[0];
    if !c.failed {
      CountedTellSuccess(p, s.state, s.satisfied, s.heard, c, s.pushed, q, s.satisfied[q] + 1);
      if s.satisfied[q] + 1 == |p.deps[q]| {
        ReadyIsFresh(p, s.state, s.heard, s.pushed, q);
      }
    }
  }

  lemma TellChecks(p: Plan, s: State)
    requires Enabled(s, Tell) && s.coordinator.todo != [] && MayBeTold(p, s, s.coordinator.todo[0])
    ensures forall r :: Checked(TellOne(p, s), r) <==> Checked(s, r)
    ensures forall r :: Checked(s, r) ==> TellOne(p, s).state[r] == s.state[r]
  {}

  /** The log of a run says how every rule checked along it went, and of no other. */
  lemma {:induction false} LogTells(p: Plan, s: State, run: seq<Action>)
    requires Inv(p, s) && IsRun(p, s, run)
    ensures ghost var t := After(p, s, run);
            && (forall r :: Checked(s, r) ==> Checked(t, r) && t.state[r] == s.state[r])
            && (forall d :: d in Log(p, s, run) ==> Checked(t, d.rule) && t.state[d.rule] == if d.ok then 0 else -1)
            && (forall r :: Checked(t, r) && !Checked(s, r) ==> exists d :: d in Log(p, s, run) && d.rule == r)
    decreases |run|
  {
    hide Inv, Do, Enabled, Checked;
    if run != [] {
      KeepsInv(p, s, run[0]);
      StepChecks(p, s, run[0]);
      LogTells(p, Do(p, s, run[0]), run[1..]);
    }
  }

  /** Rules that were not checked, each once. */
  ghost predicate FirstTime(s: State, log: seq<Done>) {
    && (forall d :: d in log ==> !Checked(s, d.rule))
    && (forall i, j :: 0 <= i < j < |log| ==> log[i].rule != log[j].rule)
  }

  lemma FirstTimeMore(s: State, t: State, first: seq<Done>, rest: seq<Done>)
    requires |first| <= 1 && FirstTime(t, rest)
    requires forall r :: Checked(s, r) ==> Checked(t, r)
    requires first != [] ==> Checked(t, first[0].rule) && !Checked(s, first[0].rule)
    ensures FirstTime(s, first + rest)
  {
    hide Checked;
    assert forall i :: 0 <= i < |rest| ==> rest[i] in rest;
  }

  /** No rule finishes twice along a run, nor one that was checked before. */
  lemma {:induction false} LoggedOnce(p: Plan, s: State, run: seq<Action>)
    requires Inv(p, s) && IsRun(p, s, run)
    ensures FirstTime(s, Log(p, s, run))
    decreases |run|
  {
    hide Inv, Do, FirstTime, Checked;
    if run == [] {
      NothingLogged(s);
    } else {
      KeepsInv(p, s, run[0]);
      StepChecks(p, s, run[0]);
      if run[0].Finish? {
        BusyUnchecked(p, s, run[0].w);
        UncheckedIs(s, s.workers[run[0].w].rule);
      }
      LoggedOnce(p, Do(p, s, run[0]), run[1..]);
      FirstTimeMore(s, Do(p, s, run[0]), DoneBy(s, run[0]), Log(p, Do(p, s, run[0]), run[1..]));
    }
  }

  lemma NothingLogged(s: State)
    ensures FirstTime(s, [])
  {}

  lemma UncheckedIs(s: State, r: string)
    requires Unchecked(s, r)
    ensures !Checked(s, r)
  {}

  lemma CheckedStates(p: Plan, s: State)
    requires Inv(p, s)
    ensures forall r :: Checked(s, r) ==> s.state[r] in {0, -1}
  {
    hide Counted, CheckedOnce, Justified, Spread, Coordinated, Draining, WellFormed, Placed, TypeOk;
  }

  lemma InitUnchecked(p: Plan, s: State)
    requires Init(p, s)
    ensures forall r :: !Checked(s, r)
  {}

  /**
   * Along every run from the start, a queued rule that has been checked has state 0 exactly when its commands
   * succeeded and -1 exactly when they failed, and the rules logged are those.
   */
  lemma OutcomesDecide(p: Plan, s: State, run: seq<Action>)
    requires Inv(p, s) && Init(p, s) && IsRun(p, s, run)
    ensures ghost var t := After(p, s, run);
            && (forall r :: Checked(t, r) ==>
                  (t.state[r] == 0 <==> Done(r, true) in Log(p, s, run)) && (t.state[r] == -1 <==> Done(r, false) in Log(p, s, run)))
            && (forall d :: d in Log(p, s, run) ==> Checked(t, d.rule))
  {
    InitUnchecked(p, s);
    hide Inv, Init, Checked, After, IsRun, Log;
    LogTells(p, s, run);
    AfterKeepsInv(p, s, run);
    CheckedStates(p, After(p, s, run));
    Decides(After(p, s, run), Log(p, s, run));
  }

  lemma Decides(t: State, log: seq<Done>)
    requires forall r :: Checked(t, r) ==> t.state[r] in {0, -1}
    requires forall d :: d in log ==> Checked(t, d.rule) && t.state[d.rule] == if d.ok then 0 else -1
    requires forall r :: Checked(t, r) ==> exists d :: d in log && d.rule == r
    ensures forall r :: Checked(t, r) ==>
              (t.state[r] == 0 <==> Done(r, true) in log) && (t.state[r] == -1 <==> Done(r, false) in log)
  {
    forall r | Checked(t, r)
      ensures (t.state[r] == 0 <==> Done(r, true) in log) && (t.state[r] == -1 <==> Done(r, false) in log)
    {
      var d :| d in log && d.rule == r;
      assert d == Done(r, d.ok);
    }
  }

  lemma QueuedChecked(p: Plan, s: State, chain: seq<string>, i: nat)
    requires Inv(p, s) && Chain(p, chain) && chain[0] in s.pushed && 0 < i < |chain|
    ensures Checked(s, chain[i]) && s.state[chain[i]] == 0
  {
    hide Inv;
    QueuedAfterDependencies(p, s, chain, i);
  }

  /** Once a rule has been queued, the commands of every direct or transitive dependency have run and succeeded. */
  lemma DependenciesSucceeded(p: Plan, s: State, run: seq<Action>, chain: seq<string>, i: nat)
    requires Inv(p, s) && Init(p, s) && IsRun(p, s, run)
    requires Chain(p, chain) && 0 < i < |chain| && chain[0] in After(p, s, run).pushed
    ensures Done(chain[i], true) in Log(p, s, run)
  {
    hide Inv, Init, Checked, After, IsRun, Log, Chain;
    AfterKeepsInv(p, s, run);
    QueuedChecked(p, After(p, s, run), chain, i);
    OutcomesDecide(p, s, run);
  }

  /** A failure is logged exactly when some Finish of the run reports one. */
  lemma {:induction false} LogIsActions(p: Plan, s: State, run: seq<Action>)
    requires Inv(p, s) && IsRun(p, s, run)
    ensures (exists d :: d in Log(p, s, run) && !d.ok) <==> (exists a :: a in run && a.Finish? && !a.ok)
    decreases |run|
  {
    hide Inv, Do;
    if run != [] {
      KeepsInv(p, s, run[0]);
      LogIsActions(p, Do(p, s, run[0]), run[1..]);
      FirstOrRest(run, DoneBy(s, run[0]), Log(p, Do(p, s, run[0]), run[1..]));
    }
  }

  lemma FirstOrRest(run: seq<Action>, first: seq<Done>, rest: seq<Done>)
    requires run != [] && |first| == (if run[0].Finish? then 1 else 0) && (run[0].Finish? ==> first[0].ok == run[0].ok)
    requires (exists d :: d in rest && !d.ok) <==> (exists a :: a in run[1..] && a.Finish? && !a.ok)
    ensures (exists d :: d in first + rest && !d.ok) <==> (exists a :: a in run && a.Finish? && !a.ok)
  {
    assert run == [run[0]] + run[1..];
    if a :| a in run && a.Finish? && !a.ok {
      if a == run[0] {
        assert first[0] in first + rest && !first[0].ok;
      } else {
        assert a in run[1..];
        var d :| d in rest && !d.ok;
        assert d in first + rest;
      }
    }
    if d :| d in first + rest && !d.ok {
      if d in first {
        assert run[0] in run && run[0].Finish? && !run[0].ok;
      } else {
        assert d in rest;
        var a :| a in run[1..] && a.Finish? && !a.ok;
        assert a in run;
      }
    }
  }

  lemma PushedInPlan(p: Plan, s: State)
    requires Inv(p, s)
    ensures forall r :: r in s.pushed ==> r in p.deps
  {
    hide CheckedOnce, Justified, Spread, Coordinated, Draining, WellFormed, Placed, TypeOk, Settled;
  }

  /**
   * A run that cannot go on ends with state 0 at "" exactly when every Finish along it reports success; then the
   * commands of every rule have run. Otherwise it ends with -1.
   */
  lemma SucceedsExactly(p: Plan, level: map<string, nat>, top: nat, s: State, run: seq<Action>)
    requires Inv(p, s) && Init(p, s) && Layered(p, level, top) && IsRun(p, s, run)
    requires forall a :: !Enabled(After(p, s, run), a)
    ensures ghost var t := After(p, s, run);
            && GOAL in t.state && t.state[GOAL] in {0, -1}
            && (t.state[GOAL] == 0 <==> forall a :: a in run && a.Finish? ==> a.ok)
            && (t.state[GOAL] == 0 ==> forall r :: r in p.deps ==> Done(r, true) in Log(p, s, run))
  {
    hide Inv, Init, After, IsRun, Log, Layered;
    EveryRunEnds(p, level, top, s, run);
    OutcomesDecide(p, s, run);
    LogIsActions(p, s, run);
    var t := After(p, s, run);
    AfterKeepsInv(p, s, run);
    PushedInPlan(p, t);
    if t.state[GOAL] == 0 {
      forall d | d in Log(p, s, run) ensures d.ok {
        assert d == Done(d.rule, d.ok);
        assert Checked(t, d.rule) && t.state[d.rule] == 0;
      }
    } else {
      var r :| r in t.pushed && r in t.state && t.state[r] == -1;
      assert Checked(t, r) && Done(r, false) in Log(p, s, run);
    }
  }
}
