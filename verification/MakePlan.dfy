/**
 * From the graph that preparation leaves to the plan the threads run: what parmake keeps is
 * always a plan that EveryRunEnds and RunsAreBounded apply to.
 */
module MakePlan {
  import opened Basics
  import opened MakeGraph
  import opened MakeRule
  import opened Seqs
  import MakeRun

  /** Neighbours as sets, and the antineighbours of every vertex once, in any order. */
  ghost predicate PlanOf(g: Graph, p: MakeRun.Plan) {
    && p.deps.Keys == g.Keys && p.users.Keys == g.Keys
    && (forall v :: v in g ==> p.deps[v] == Elements(g[v]))
    && (forall d :: d in g ==> Distinct(p.users[d]))
    && (forall d, q :: d in g ==> (q in p.users[d] <==> Edge(g, q, d)))
  }

  ghost function ReachableSet(g: Graph, v: string): set<string> {
    set u | u in g && Reaches(g, v, u)
  }

  lemma ReachableBound(g: Graph, v: string)
    ensures |ReachableSet(g, v)| <= |g.Keys|
  {
    SubsetSize(ReachableSet(g, v), g.Keys);
  }

  lemma LevelsDrop(g: Graph, v: string, d: string)
    requires Closed(g) && Edge(g, v, d) && !ReachesCycle(g, v)
    ensures |ReachableSet(g, d)| < |ReachableSet(g, v)|
  {
    forall u | u in ReachableSet(g, d) ensures u in ReachableSet(g, v) {
      ReachesEdge(g, v, d, u);
    }
    ReachesSelf(g, v);
    if Reaches(g, d, v) {
      var w :| WalkBetween(g, w, d, v);
      assert WalkBetween(g, [v] + w, v, v);
    }
    assert ReachableSet(g, d) <= ReachableSet(g, v) - {v};
    SubsetSize(ReachableSet(g, d), ReachableSet(g, v) - {v});
  }

  /** Every kept rule other than "" has a rule that depends on it. */
  lemma HasUser(g: Graph, part: Graph, d: string) returns (q: string)
    requires Prepared(g, part) && GoalIsRoot(g) && d in part && d != GOAL
    ensures Edge(part, q, d)
  {
    var t :| t in part[GOAL] && Reaches(g, t, d);
    if t == d { return GOAL; }
    var w :| WalkBetween(g, w, t, d);
    q := w[|w| - 2];
    assert Edge(g, w[|w| - 2], w[|w| - 1]);
    assert WalkBetween(g, w[..|w| - 1], t, q);
    assert Reaches(g, t, q);
    assert Edge(g, GOAL, t);
    SameWalks(g, g, w[..|w| - 1]);
    assert q in w[..|w| - 1];
  }

  lemma EmptyExactly(s: seq<string>)
    ensures (forall x :: x !in s) <==> s == []
  {
    if s != [] {
      assert s[0] in s;
    }
  }

  lemma UsersWellFormed(g: Graph, part: Graph, p: MakeRun.Plan)
    requires Prepared(g, part) && GoalIsRoot(g) && GoalIsRoot(part) && PlanOf(part, p)
    ensures forall d :: d in p.users ==> (p.users[d] == [] <==> d == GOAL)
  {
    forall d | d in p.users ensures p.users[d] == [] <==> d == GOAL {
      if d == GOAL {
        assert forall q :: !Edge(part, q, GOAL);
        EmptyExactly(p.users[d]);
      } else {
        var q := HasUser(g, part, d);
        assert q in p.users[d];
      }
    }
  }

  lemma Levels(part: Graph, p: MakeRun.Plan) returns (level: map<string, nat>, top: nat)
    requires Closed(part) && PlanOf(part, p) && forall v :: v in part ==> !ReachesCycle(part, v)
    ensures MakeRun.Layered(p, level, top)
  {
    hide ReachableSet, ReachesCycle, Closed, PlanOf;
    PlanKeys(part, p);
    level := map v | v in part :: |ReachableSet(part, v)|;
    top := |part.Keys|;
    forall v | v in part ensures level[v] <= top {
      ReachableBound(part, v);
    }
    forall v, d | v in p.deps && d in p.deps[v] && d in level ensures level[d] < level[v] {
      DepIsEdge(part, p, v, d);
      LevelsDrop(part, v, d);
    }
  }

  lemma PlanKeys(g: Graph, p: MakeRun.Plan)
    requires PlanOf(g, p)
    ensures p.deps.Keys == g.Keys
  {}

  lemma DepIsEdge(g: Graph, p: MakeRun.Plan, v: string, d: string)
    requires PlanOf(g, p) && v in p.deps && d in p.deps[v]
    ensures Edge(g, v, d)
  {}

  /** What Prepare keeps is well formed and acyclic, so the results about runs apply to it. */
  lemma PreparedIsRunnable(g: Graph, part: Graph, p: MakeRun.Plan) returns (level: map<string, nat>, top: nat)
    requires Prepared(g, part) && GoalIsRoot(g)
    requires Closed(part) && GoalIsRoot(part) && PlanOf(part, p)
    ensures MakeRun.WellFormed(p) && MakeRun.Layered(p, level, top)
  {
    UsersWellFormed(g, part, p);
    level, top := Levels(part, p);
    hide Prepared, MakeRun.Layered;
  }
}
