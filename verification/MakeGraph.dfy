/**
 * The dependency graph of parallel_make/parmake.c before anything runs: cycle detection
 * from a goal, dropping the goals that reach a cycle, and pruning what is left to the
 * rules reachable from the sentinel rule "".
 *
 * A graph maps each vertex to the vector of its neighbours (the rules it depends on).
 */
module MakeGraph {
  import opened MakeRule
  import opened Seqs

  type Graph = map<string, seq<string>>

  /** Every neighbour is a vertex, and graph_neighbors lists it once. */
  ghost predicate Closed(g: Graph) {
    forall v, n :: v in g && n in g[v] ==> n in g
  }

  ghost predicate NoRepeats(g: Graph) {
    forall v :: v in g ==> Distinct(g[v])
  }

  // ---- Walks, reachability and cycles: the specification -------------------------------

  ghost predicate Edge(g: Graph, v: string, n: string) {
    v in g && n in g[v]
  }

  ghost predicate Walk(g: Graph, w: seq<string>) {
    && |w| > 0
    && forall i :: 0 <= i < |w| - 1 ==> Edge(g, w[i], w[i + 1])
  }

  ghost predicate WalkBetween(g: Graph, w: seq<string>, v: string, u: string) {
    Walk(g, w) && w[0] == v && w[|w| - 1] == u
  }

  ghost predicate Reaches(g: Graph, v: string, u: string) {
    exists w :: WalkBetween(g, w, v, u)
  }

  ghost predicate OnCycle(g: Graph, u: string) {
    exists w :: WalkBetween(g, w, u, u) && |w| > 1
  }

  ghost predicate ReachesCycle(g: Graph, v: string) {
    exists u :: Reaches(g, v, u) && OnCycle(g, u)
  }

  // The last vertex of the walk lies in `visited` or earlier on the walk.
  ghost predicate Returns(g: Graph, w: seq<string>, v: string, visited: set<string>) {
    && Walk(g, w)
    && w[0] == v
    && (w[|w| - 1] in visited || w[|w| - 1] in w[..|w| - 1])
  }

  ghost predicate Trapped(g: Graph, v: string, visited: set<string>) {
    exists w :: Returns(g, w, v, visited)
  }

  lemma ReachesSelf(g: Graph, v: string)
    ensures Reaches(g, v, v)
  {
    assert WalkBetween(g, [v], v, v);
  }

  lemma ReachesEdge(g: Graph, v: string, n: string, u: string)
    requires Edge(g, v, n) && Reaches(g, n, u)
    ensures Reaches(g, v, u)
  {
    var w :| WalkBetween(g, w, n, u);
    assert WalkBetween(g, [v] + w, v, u);
  }

  lemma {:induction false} ReachesTrans(g: Graph, w: seq<string>, v: string, n: string, u: string)
    requires WalkBetween(g, w, v, n) && Reaches(g, n, u)
    ensures Reaches(g, v, u)
    decreases |w|
  {
    if |w| > 1 {
      assert WalkBetween(g, w[1..], w[1], n);
      ReachesTrans(g, w[1..], w[1], n, u);
      assert Edge(g, w[0], w[1]);
      ReachesEdge(g, v, w[1], u);
    }
  }

  /** What a set closed under neighbours contains at the start of a walk, it contains throughout. */
  lemma {:induction false} ClosedKeepsWalk(g: Graph, s: set<string>, w: seq<string>)
    requires Walk(g, w) && w[0] in s
    requires forall v, n :: v in s && Edge(g, v, n) ==> n in s
    ensures forall i :: 0 <= i < |w| ==> w[i] in s
    decreases |w|
  {
    if |w| > 1 {
      assert Edge(g, w[0], w[1]);
      ClosedKeepsWalk(g, s, w[1..]);
      forall i | 0 <= i < |w| ensures w[i] in s {
        if i > 0 { assert w[i] == w[1..][i - 1]; }
      }
    }
  }

  // ---- Cycle detection (lines 43-72) ----------------------------------------------------

  lemma TrappedStep(g: Graph, v: string, visited: set<string>, n: string)
    requires Edge(g, v, n) && Trapped(g, n, visited + {v})
    ensures Trapped(g, v, visited)
  {
    var w :| Returns(g, w, n, visited + {v});
    var x := [v] + w;
    assert x[|x| - 1] == w[|w| - 1];
    if w[|w| - 1] in w[..|w| - 1] {
      var i :| 0 <= i < |w| - 1 && w[i] == w[|w| - 1];
      assert x[..|x| - 1][i + 1] == w[i];
    } else if w[|w| - 1] == v {
      assert x[..|x| - 1][0] == v;
    }
    assert Returns(g, x, v, visited);
  }

  lemma TrappedOnlyThroughNeighbour(g: Graph, v: string, visited: set<string>) returns (n: string)
    requires v !in visited && Trapped(g, v, visited)
    ensures Edge(g, v, n) && Trapped(g, n, visited + {v})
  {
    var w :| Returns(g, w, v, visited);
    assert |w| > 1;
    n := w[1];
    var x := w[1..];
    var last := w[|w| - 1];
    assert x[|x| - 1] == last;
    if last in w[..|w| - 1] && last != v {
      var i :| 0 <= i < |w| - 1 && w[i] == last;
      assert x[..|x| - 1][i - 1] == last;
    }
    assert Edge(g, w[0], w[1]);
    assert Returns(g, x, n, visited + {v});
  }

  /** From an empty visited set, running into the walk itself means reaching a cycle, and back. */
  lemma TrappedIsCycle(g: Graph, v: string)
    ensures Trapped(g, v, {}) <==> ReachesCycle(g, v)
  {
    if Trapped(g, v, {}) {
      var w :| Returns(g, w, v, {});
      var last := w[|w| - 1];
      var i :| 0 <= i < |w| - 1 && w[i] == last;
      assert WalkBetween(g, w[..i + 1], v, last);
      assert WalkBetween(g, w[i..], last, last);
      assert Reaches(g, v, last) && OnCycle(g, last);
    }
    if ReachesCycle(g, v) {
      var u :| Reaches(g, v, u) && OnCycle(g, u);
      var a :| WalkBetween(g, a, v, u);
      var b :| WalkBetween(g, b, u, u) && |b| > 1;
      var w := a + b[1..];
      forall i | 0 <= i < |w| - 1 ensures Edge(g, w[i], w[i + 1]) {
        if i >= |a| - 1 {
          assert Edge(g, b[i - |a| + 1], b[i - |a| + 2]);
        }
      }
      assert w[..|w| - 1][|a| - 1] == u;
      assert Returns(g, w, v, {});
    }
  }

  /** set.h: a mutable set of strings. */
  class StringSet {
    var items: set<string>

    constructor ()
      ensures items == {}
    {
      items := {};
    }
  }

  method CheckCyclic(v: string, g: Graph, visited: StringSet) returns (cyclic: bool)
    requires Closed(g) && v in g
    modifies visited
    ensures cyclic <==> Trapped(g, v, old(visited.items))
    ensures !cyclic ==> visited.items == old(visited.items)
    decreases g.Keys - visited.items
  {
    ghost var before := visited.items;
    if v in visited.items {
      assert Returns(g, [v], v, before);
      return true;
    }
    visited.items := visited.items + {v};
    var neighbors := g[v];
    var i := 0;
    while i < |neighbors|
      invariant 0 <= i <= |neighbors|
      invariant visited.items == before + {v}
      invariant forall k :: 0 <= k < i ==> !Trapped(g, neighbors[k], before + {v})
    {
      var n := neighbors[i];
      assert Edge(g, v, n);
      var found := CheckCyclic(n, g, visited);
      if found {
        TrappedStep(g, v, before, n);
        return true;
      }
      i := i + 1;
    }
    visited.items := visited.items - {v};
    if Trapped(g, v, before) {
      var n := TrappedOnlyThroughNeighbour(g, v, before);
      assert false;
    }
    return false;
  }

  method DetectCycle(g: Graph, target: string) returns (cyclic: bool)
    requires Closed(g) && target in g
    ensures cyclic <==> ReachesCycle(g, target)
  {
    var s := new StringSet();
    cyclic := CheckCyclic(target, g, s);
    TrappedIsCycle(g, target);
  }

  // ---- Pruning (lines 75-103) -------------------------------------------------------------

  /** The state field of every rule, while find_useful_nodes uses it as a mark. */
  class Marks {
    var state: map<string, int>

    constructor (s: map<string, int>)
      ensures state == s
    {
      state := s;
    }

    ghost function Marked(): set<string>
      reads this
    {
      set v | v in state && state[v] == 1
    }
  }

  method MarkUseful(g: Graph, t: string, marks: Marks)
    requires Closed(g) && t in g && marks.state.Keys == g.Keys
    modifies marks
    ensures marks.state.Keys == g.Keys
    ensures old(marks.Marked()) + {t} <= marks.Marked()
    ensures forall v :: v in marks.state && marks.state[v] != 1 ==> marks.state[v] == old(marks.state)[v]
    ensures forall v, n :: v in marks.Marked() - old(marks.Marked()) && Edge(g, v, n) ==> n in marks.Marked()
    ensures forall v :: v in marks.Marked() - old(marks.Marked()) ==> Reaches(g, t, v)
    decreases g.Keys - marks.Marked()
  {
    if marks.state[t] == 1 { return; }
    ghost var before := marks.Marked();
    ghost var was := marks.state;
    marks.state := marks.state[t := 1];
    ghost var mine := marks.Marked();
    assert mine == before + {t};
    ReachesSelf(g, t);
    var vec := g[t];
    var a := 0;
    while a < |vec|
      invariant 0 <= a <= |vec|
      invariant marks.state.Keys == g.Keys
      invariant mine <= marks.Marked()
      invariant forall v :: v in marks.state && marks.state[v] != 1 ==> marks.state[v] == was[v]
      invariant forall k :: 0 <= k < a ==> vec[k] in marks.Marked()
      invariant forall v, n :: v in marks.Marked() - mine && Edge(g, v, n) ==> n in marks.Marked()
      invariant forall v :: v in marks.Marked() - before ==> Reaches(g, t, v)
    {
      assert Edge(g, t, vec[a]);
      ghost var sofar := marks.Marked();
      MarkUseful(g, vec[a], marks);
      forall v | v in marks.Marked() - before ensures Reaches(g, t, v) {
        if v !in sofar { ReachesEdge(g, t, vec[a], v); }
      }
      a := a + 1;
    }
  }

  /** graph_remove_vertex: the vertex goes, and so does every edge at it. */
  function RemoveVertex(g: Graph, v: string): Graph {
    map k | k in g && k != v :: Dropping(g[k], v)
  }

  function Dropping(s: seq<string>, v: string): (r: seq<string>)
    ensures forall x :: x in r <==> x in s && x != v
    ensures v !in s ==> r == s
  {
    if s == [] then []
    else if s[0] == v then Dropping(s[1..], v)
    else [s[0]] + Dropping(s[1..], v)
  }

  /** The part of g reachable from GOAL, with its edges. */
  ghost predicate IsUsefulPart(g: Graph, part: Graph) {
    && (forall v :: v in part <==> v in g && Reaches(g, GOAL, v))
    && (forall v :: v in part ==> part[v] == g[v])
  }

  method ResetMarks(g: Graph, vertices: seq<string>, marks: Marks)
    requires marks.state.Keys == g.Keys
    requires forall v :: v in vertices <==> v in g
    modifies marks
    ensures marks.state.Keys == g.Keys
    ensures forall v :: v in g ==> marks.state[v] == 0
  {
    var i := 0;
    while i < |vertices|
      invariant 0 <= i <= |vertices|
      invariant marks.state.Keys == g.Keys
      invariant forall k :: 0 <= k < i ==> marks.state[vertices[k]] == 0
    {
      marks.state := marks.state[vertices[i] := 0];
      i := i + 1;
    }
  }

  method DropUnmarked(g: Graph, vertices: seq<string>, state: map<string, int>) returns (part: Graph)
    requires state.Keys == g.Keys
    requires forall v :: v in vertices <==> v in g
    requires Distinct(vertices)
    requires forall v, n :: Edge(g, v, n) && state[v] != 0 ==> n in g && state[n] != 0
    ensures forall v :: v in part <==> v in g && state[v] != 0
    ensures forall v :: v in part ==> part[v] == g[v]
  {
    part := g;
    var i := 0;
    while i < |vertices|
      invariant 0 <= i <= |vertices|
      invariant forall v :: v in part <==> v in g && (state[v] != 0 || v in vertices[i..])
      invariant forall v :: v in part && state[v] != 0 ==> part[v] == g[v]
    {
      var v := vertices[i];
      if state[v] == 0 {
        var rest := RemoveVertex(part, v);
        forall u | u in rest && state[u] != 0 ensures rest[u] == g[u] {
          assert part[u] == g[u];
          assert v in g[u] ==> Edge(g, u, v);
        }
        part := rest;
      }
      i := i + 1;
    }
  }

  method FindUsefulNodes(g: Graph, marks: Marks) returns (part: Graph)
    requires Closed(g) && GOAL in g && marks.state.Keys == g.Keys
    modifies marks
    ensures IsUsefulPart(g, part)
    ensures marks.state.Keys == g.Keys
    ensures forall v :: v in part ==> marks.state[v] == 1
  {
    hide Reaches;
    var vertices := Vertices(g);
    ResetMarks(g, vertices, marks);
    assert marks.Marked() == {};
    MarkUseful(g, GOAL, marks);
    UsefulMarks(g, marks);
    part := DropUnmarked(g, vertices, marks.state);
  }

  /** graph_vertices: every vertex once, in an order of the library's choosing. */
  method Vertices(g: Graph) returns (all: seq<string>)
    ensures forall v :: v in all <==> v in g
    ensures Distinct(all)
  {
    all := [];
    var rest := g.Keys;
    while rest != {}
      invariant forall v :: v in g <==> v in all || v in rest
      invariant forall v :: v in all ==> v !in rest
      invariant Distinct(all)
      decreases rest
    {
      var v :| v in rest;
      all := all + [v];
      rest := rest - {v};
    }
  }

  lemma UsefulMarks(g: Graph, marks: Marks)
    requires marks.state.Keys == g.Keys
    requires GOAL in marks.Marked()
    requires forall v :: v in marks.state && marks.state[v] != 1 ==> marks.state[v] == 0
    requires forall v, n :: v in marks.Marked() && Edge(g, v, n) ==> n in marks.Marked()
    requires forall v :: v in marks.Marked() ==> Reaches(g, GOAL, v)
    ensures forall v :: v in g ==> (marks.state[v] != 0 <==> Reaches(g, GOAL, v))
    ensures forall v :: v in g && marks.state[v] != 0 ==> marks.state[v] == 1
    ensures forall v, n :: Edge(g, v, n) && marks.state[v] != 0 ==> n in g && marks.state[n] != 0
  {
    forall v | v in g && Reaches(g, GOAL, v) ensures v in marks.Marked() {
      var w :| WalkBetween(g, w, GOAL, v);
      ClosedKeepsWalk(g, marks.Marked(), w);
    }
    forall v, n | Edge(g, v, n) && marks.state[v] != 0 ensures n in g && marks.state[n] != 0 {
      assert v in marks.Marked();
    }
  }

  // ---- parmake, lines 160-174 ----------------------------------------------------------

  /** No rule depends on the sentinel: the parser only gives "" outgoing edges. */
  ghost predicate GoalIsRoot(g: Graph) {
    GOAL in g && forall v :: v in g ==> GOAL !in g[v]
  }

  /** Two graphs that differ at most in the edges out of GOAL. */
  ghost predicate SameBelowGoal(g: Graph, h: Graph) {
    && g.Keys == h.Keys
    && forall v :: v in g && v != GOAL ==> g[v] == h[v]
  }

  lemma {:induction false} SameWalks(g: Graph, h: Graph, w: seq<string>)
    requires SameBelowGoal(g, h) && GoalIsRoot(g) && GoalIsRoot(h)
    requires Walk(g, w) && w[0] != GOAL
    ensures Walk(h, w) && GOAL !in w
    decreases |w|
  {
    if |w| > 1 {
      assert Edge(g, w[0], w[1]);
      SameWalks(g, h, w[1..]);
      forall i | 0 <= i < |w| - 1 ensures Edge(h, w[i], w[i + 1]) {
        if i > 0 { assert Edge(h, w[1..][i - 1], w[1..][i]); }
      }
      assert w == [w[0]] + w[1..];
    }
  }

  lemma SameCycles(g: Graph, h: Graph, v: string)
    requires SameBelowGoal(g, h) && GoalIsRoot(g) && GoalIsRoot(h) && v != GOAL
    ensures ReachesCycle(g, v) ==> ReachesCycle(h, v)
  {
    if ReachesCycle(g, v) {
      TrappedIsCycle(g, v);
      var w :| Returns(g, w, v, {});
      SameWalks(g, h, w);
      assert Returns(h, w, v, {});
      TrappedIsCycle(h, v);
    }
  }

  /**
   * The goals given to parmake, cut to those that reach no cycle and everything those reach:
   * the kept graph holds exactly the vertices reachable from "" through such goals, with all
   * their edges, and no cycle can be reached in it.
   */
  ghost predicate Prepared(g: Graph, part: Graph) {
    && GOAL in g && GOAL in part
    && (forall v :: v in part[GOAL] <==> v in g[GOAL] && !ReachesCycle(g, v))
    && (forall v :: v in part && v != GOAL ==> v in g && part[v] == g[v])
    && (forall v :: v in part <==> v == GOAL || exists t :: t in part[GOAL] && Reaches(g, t, v))
    && (forall v :: v in part ==> !ReachesCycle(part, v))
  }

  /** `cut` is g with the edges from GOAL to the goals that reach a cycle removed. */
  ghost predicate IsCut(g: Graph, cut: Graph) {
    && SameBelowGoal(g, cut) && GoalIsRoot(cut) && Distinct(cut[GOAL])
    && GOAL in g
    && forall v :: v in cut[GOAL] <==> v in g[GOAL] && !ReachesCycle(g, v)
  }

  method DropCyclicGoals(g: Graph) returns (cut: Graph, failed: seq<string>)
    requires Closed(g) && NoRepeats(g) && GoalIsRoot(g)
    ensures Closed(cut) && IsCut(g, cut)
    ensures forall v :: v in failed <==> v in g[GOAL] && ReachesCycle(g, v)
  {
    hide ReachesCycle;
    cut := g;
    var goals := g[GOAL];
    failed := [];
    var i := 0;
    while i < |goals|
      invariant 0 <= i <= |goals|
      invariant SameBelowGoal(g, cut) && GoalIsRoot(cut) && Closed(cut)
      invariant forall v :: v in cut[GOAL] <==> v in goals && !(v in failed)
      invariant Distinct(cut[GOAL])
      invariant forall v :: v in failed <==> v in goals[..i] && ReachesCycle(g, v)
    {
      var v := goals[i];
      assert v in g && v != GOAL;
      var cyclic := DetectCycle(cut, v);
      SameCycles(g, cut, v);
      SameCycles(cut, g, v);
      assert goals[..i + 1] == goals[..i] + [v];
      if cyclic {
        failed := failed + [v];
        DroppingDistinct(cut[GOAL], v);
        cut := cut[GOAL := Dropping(cut[GOAL], v)];
      }
      i := i + 1;
    }
    assert goals[..|goals|] == goals;
  }

  method Prepare(g: Graph, marks: Marks) returns (part: Graph, failed: seq<string>)
    requires Closed(g) && NoRepeats(g) && GoalIsRoot(g) && marks.state.Keys == g.Keys
    modifies marks
    ensures Prepared(g, part)
    ensures Closed(part) && NoRepeats(part) && GoalIsRoot(part)
    ensures marks.state.Keys == g.Keys && forall v :: v in part ==> marks.state[v] == 1
    ensures forall v :: v in failed <==> v in g[GOAL] && ReachesCycle(g, v)
  {
    hide ReachesCycle, Prepared, Reaches;
    var cut;
    cut, failed := DropCyclicGoals(g);
    part := FindUsefulNodes(cut, marks);
    PreparedGraph(g, cut, part);
  }

  lemma {:induction false} DroppingDistinct(s: seq<string>, v: string)
    requires Distinct(s)
    ensures Distinct(Dropping(s, v))
  {
    if s != [] {
      forall i, j | 0 <= i < j < |s[1..]| ensures s[1..][i] != s[1..][j] {
        assert s[i + 1] != s[j + 1];
      }
      DroppingDistinct(s[1..], v);
      var rest := Dropping(s[1..], v);
      assert s[0] !in rest;
      forall j | 0 <= j < |rest| ensures rest[j] != s[0] {
        assert rest[j] in rest;
      }
    }
  }

  lemma PreparedGraph(g: Graph, cut: Graph, part: Graph)
    requires Closed(g) && NoRepeats(g) && GoalIsRoot(g)
    requires IsCut(g, cut) && IsUsefulPart(cut, part)
    ensures Prepared(g, part)
    ensures Closed(part) && NoRepeats(part) && GoalIsRoot(part)
  {
    ReachesSelf(cut, GOAL);
    PartClosed(cut, part);
    forall v | v in part ensures v == GOAL || exists t :: t in part[GOAL] && Reaches(g, t, v) {
      if v != GOAL { var t := ThroughGoal(g, cut, v); }
    }
    forall v, t | t in part[GOAL] && Reaches(g, t, v) ensures v in part {
      ReachedIsKept(g, cut, part, t, v);
    }
    forall v | v in part ensures !ReachesCycle(part, v) {
      NoCycleKept(g, cut, part, v);
    }
  }

  lemma PartClosed(cut: Graph, part: Graph)
    requires Closed(cut) && IsUsefulPart(cut, part)
    ensures Closed(part)
  {
    forall v, n | v in part && n in part[v] ensures n in part {
      assert Edge(cut, v, n);
      var w :| WalkBetween(cut, w, GOAL, v);
      ReachesSelf(cut, n);
      ReachesEdge(cut, v, n, n);
      ReachesTrans(cut, w, GOAL, v, n);
    }
  }

  lemma ThroughGoal(g: Graph, cut: Graph, v: string) returns (t: string)
    requires SameBelowGoal(g, cut) && GoalIsRoot(g) && GoalIsRoot(cut)
    requires Reaches(cut, GOAL, v) && v != GOAL
    ensures t in cut[GOAL] && Reaches(g, t, v)
  {
    var w :| WalkBetween(cut, w, GOAL, v);
    assert |w| > 1 && Edge(cut, w[0], w[1]);
    t := w[1];
    var x := w[1..];
    assert Walk(cut, x) by {
      forall i | 0 <= i < |x| - 1 ensures Edge(cut, x[i], x[i + 1]) {
        assert Edge(cut, w[i + 1], w[i + 2]);
      }
    }
    SameWalks(cut, g, x);
    assert WalkBetween(g, x, t, v);
  }

  lemma ReachedIsKept(g: Graph, cut: Graph, part: Graph, t: string, v: string)
    requires SameBelowGoal(g, cut) && GoalIsRoot(g) && GoalIsRoot(cut) && Closed(cut)
    requires IsUsefulPart(cut, part) && GOAL in part
    requires t in part[GOAL] && Reaches(g, t, v)
    ensures v in part
  {
    var w :| WalkBetween(g, w, t, v);
    assert Edge(cut, GOAL, t);
    SameWalks(g, cut, w);
    assert WalkBetween(cut, w, t, v);
    ReachesEdge(cut, GOAL, t, v);
    assert [GOAL] + w != [];
    ReachedIsVertex(cut, w);
  }

  lemma ReachedIsVertex(g: Graph, w: seq<string>)
    requires Closed(g) && Walk(g, w) && w[0] in g
    ensures w[|w| - 1] in g
  {
    ClosedKeepsWalk(g, g.Keys, w);
  }

  lemma NoCycleKept(g: Graph, cut: Graph, part: Graph, v: string)
    requires SameBelowGoal(g, cut) && GoalIsRoot(g) && GoalIsRoot(cut)
    requires forall t :: t in cut[GOAL] <==> t in g[GOAL] && !ReachesCycle(g, t)
    requires IsUsefulPart(cut, part) && v in part
    ensures !ReachesCycle(part, v)
  {
    if ReachesCycle(part, v) {
      var u :| Reaches(part, v, u) && OnCycle(part, u);
      var a :| WalkBetween(part, a, v, u);
      var b :| WalkBetween(part, b, u, u) && |b| > 1;
      assert Walk(cut, a) by {
        forall i | 0 <= i < |a| - 1 ensures Edge(cut, a[i], a[i + 1]) { assert Edge(part, a[i], a[i + 1]); }
      }
      assert Walk(cut, b) by {
        forall i | 0 <= i < |b| - 1 ensures Edge(cut, b[i], b[i + 1]) { assert Edge(part, b[i], b[i + 1]); }
      }
      // u has an edge into it, so it is not GOAL
      assert Edge(cut, b[|b| - 2], b[|b| - 1]);
      assert WalkBetween(cut, a, v, u);
      assert Reaches(cut, v, u);
      var c :| WalkBetween(cut, c, GOAL, v);
      ReachesTrans(cut, c, GOAL, v, u);
      var t := ThroughGoal(g, cut, u);
      SameWalks(cut, g, b);
      assert WalkBetween(g, b, u, u);
      assert Reaches(g, t, u) && OnCycle(g, u);
    }
  }
}
