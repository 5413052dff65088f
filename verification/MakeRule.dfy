/**
 * What a worker of parallel_make/parmake.c does with one rule: whether it has to run, and
 * running its commands up to the first that fails. access, stat and system are given by their
 * results.
 */
module MakeRule {
  /** The target of the sentinel rule, whose dependencies are the goals. */
  const GOAL := ""

  /** A file as access and stat show it. */
  datatype File = Missing | Present(mtime: int)

  /** A rule runs when its target or a dependency is missing as a file, or a dependency is newer. */
  ghost predicate OutOfDate(target: File, deps: seq<File>) {
    target.Missing? || exists i :: 0 <= i < |deps| && (deps[i].Missing? || deps[i].mtime > target.mtime)
  }

  method RuleValidToRun(target: File, deps: seq<File>) returns (valid: bool)
    ensures valid <==> OutOfDate(target, deps)
  {
    if target.Missing? { return true; }
    var i := 0;
    while i < |deps|
      invariant 0 <= i <= |deps|
      invariant forall k :: 0 <= k < i ==> deps[k].Present? && deps[k].mtime <= target.mtime
    {
      if deps[i].Missing? { return true; }
      if deps[i].mtime > target.mtime { return true; }
      i := i + 1;
    }
    return false;
  }

  /** `results` are what system would return for the rule's commands, `ran` how many are run. */
  method ExecRule(results: seq<int>) returns (state: int, ran: nat)
    ensures ran <= |results| && state in {0, -1}
    ensures state == 0 ==> ran == |results| && forall i :: 0 <= i < |results| ==> results[i] == 0
    ensures state == -1 ==> ran > 0 && results[ran - 1] != 0 && forall i :: 0 <= i < ran - 1 ==> results[i] == 0
  {
    ran := 0;
    while ran < |results|
      invariant 0 <= ran <= |results|
      invariant forall i :: 0 <= i < ran ==> results[i] == 0
    {
      var result := results[ran];
      ran := ran + 1;
      if result != 0 { return -1, ran; }
    }
    return 0, ran;
  }

  /** The state a rule gets: -1 exactly when it is out of date and one of its commands fails. */
  method CheckSatisfied(target: File, deps: seq<File>, results: seq<int>) returns (state: int, ran: nat)
    ensures state == -1 <==> OutOfDate(target, deps) && exists i :: 0 <= i < |results| && results[i] != 0
    ensures state in {0, -1} && (!OutOfDate(target, deps) ==> ran == 0)
    ensures OutOfDate(target, deps) && state == 0 ==> ran == |results|
  {
    var valid := RuleValidToRun(target, deps);
    if valid {
      state, ran := ExecRule(results);
      return;
    }
    return 0, 0;
  }
}
