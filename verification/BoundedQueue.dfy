/**
 * critical_concurrency/queue.c: a linked list used as a FIFO queue by any number of threads,
 * optionally bounded. First the list under the mutex, proved against the sequence it holds;
 * then the threads, as a state machine over the stretches of code run with the mutex held.
 */
module BoundedQueue {
  import opened Basics
  import opened Seqs

  // ---- The lock regions on the sequence of elements ----------------------------------------

  predicate Full<T>(max: int, contents: seq<T>) {
    max > 0 && |contents| == max
  }

  // queue_push broadcasts when the size becomes 1
  predicate PushWakes<T>(contents: seq<T>) {
    contents == []
  }

  // queue_pull broadcasts when the size becomes max_size - 1
  predicate PullWakes<T>(max: int, contents: seq<T>) {
    Full(max, contents)
  }

  // ---- The linked list ------------------------------------------------------------------------

  class Node<T> {
    var data: T
    var next: Node?<T>

    constructor (x: T)
      ensures data == x && next == null
    {
      data := x;
      next := null;
    }
  }

  class Queue<T> {
    var head: Node?<T>
    var tail: Node?<T>
    var size: int
    const maxSize: int
    ghost var nodes: seq<Node<T>>

    ghost predicate Valid()
      reads this, nodes
    {
      && size == |nodes|
      && (forall i, j :: 0 <= i < j < |nodes| ==> nodes[i] != nodes[j])
      && (forall i :: 0 <= i < |nodes| - 1 ==> nodes[i].next == nodes[i + 1])
      && (if nodes == [] then head == null && tail == null
          else head == nodes[0] && tail == nodes[|nodes| - 1] && nodes[|nodes| - 1].next == null)
    }

    ghost function Contents(): (s: seq<T>)
      reads this, nodes
      ensures |s| == |nodes|
    {
      seq(|nodes|, i requires 0 <= i < |nodes| reads this, nodes => nodes[i].data)
    }

    constructor (max: int)
      ensures Valid() && Contents() == [] && maxSize == max && nodes == []
    {
      head := null;
      tail := null;
      size := 0;
      maxSize := max;
      nodes := [];
    }

    /** queue_push from holding the mutex at the loop test: it blocks, or appends x. */
    method PushRegion(x: T) returns (blocked: bool, broadcast: bool)
      requires Valid()
      modifies this, nodes
      ensures Valid()
      ensures forall n :: n in nodes ==> n in old(nodes) || fresh(n)
      ensures blocked == Full(maxSize, old(Contents()))
      ensures Contents() == if blocked then old(Contents()) else old(Contents()) + [x]
      ensures broadcast == (!blocked && PushWakes(old(Contents())))
    {
      broadcast := false;
      if maxSize > 0 && size == maxSize { return true, false; }
      var newNode := new Node(x);
      if size != 0 {
        tail.next := newNode;
        tail := newNode;
      } else {
        tail := newNode;
        head := newNode;
      }
      nodes := nodes + [newNode];
      size := size + 1;
      broadcast := size == 1;
      blocked := false;
    }

    /** queue_pull from holding the mutex at the loop test: it blocks, or takes the first element. */
    method PullRegion() returns (taken: Option<T>, broadcast: bool)
      requires Valid()
      modifies this
      ensures Valid() && forall n :: n in nodes ==> n in old(nodes)
      ensures taken.None? <==> old(Contents()) == []
      ensures old(Contents()) == (if taken.None? then [] else [taken.value]) + Contents()
      ensures broadcast == (taken.Some? && PullWakes(maxSize, old(Contents())))
    {
      if size == 0 { return None, false; }
      var tmp := head;
      head := head.next;
      if head == null { tail := null; }
      taken := Some(tmp.data);
      nodes := nodes[1..];
      size := size - 1;
      broadcast := maxSize > 0 && size == maxSize - 1;
    }
  }

  // ---- The threads ---------------------------------------------------------------------------

  datatype Status<T> =
    | Outside
    | Pushing(item: T, awake: bool)
    | Pulling(awake: bool)

  /**
   * `pushed` and `pulled` log the elements in the order they entered and left; the counters
   * log the calls.
   */
  datatype State<T> = State(
    contents: seq<T>, threads: seq<Status<T>>,
    pushed: seq<T>, pulled: seq<T>, pushCalls: nat, pullCalls: nat)

  datatype Action<T> =
    | CallPush(t: nat, item: T)
    | CallPull(t: nat)
    | Push(t: nat)      // the lock region of queue_push, with its broadcast
    | Pull(t: nat)      // the lock region of queue_pull, with its broadcast
    | Spurious(t: nat)  // a sleeper wakes by itself

  function Woken<T>(x: Status<T>): Status<T> {
    match x
    case Outside => Outside
    case Pushing(i, _) => Pushing(i, true)
    case Pulling(_) => Pulling(true)
  }

  predicate Asleep<T>(x: Status<T>) {
    !x.Outside? && !x.awake
  }

  predicate Enabled<T>(s: State<T>, a: Action<T>) {
    a.t < |s.threads| &&
    var x := s.threads[a.t];
    match a
    case CallPush(_, _) => x.Outside?
    case CallPull(_) => x.Outside?
    case Push(_) => x.Pushing? && x.awake
    case Pull(_) => x.Pulling? && x.awake
    case Spurious(_) => Asleep(x)
  }

  function Do<T>(max: int, s: State<T>, a: Action<T>): State<T>
    requires Enabled(s, a)
  {
    var t := a.t;
    match a
    case CallPush(_, x) => s.(threads := s.threads[t := Pushing(x, true)], pushCalls := s.pushCalls + 1)
    case CallPull(_) => s.(threads := s.threads[t := Pulling(true)], pullCalls := s.pullCalls + 1)
    case Push(_) =>
      var x := s.threads[t].item;
      if Full(max, s.contents) then s.(threads := s.threads[t := Pushing(x, false)])
      else
        var others := if PushWakes(s.contents) then Map(Woken, s.threads) else s.threads;
        s.(contents := s.contents + [x], pushed := s.pushed + [x], threads := others[t := Outside])
    case Pull(_) =>
      if s.contents == [] then s.(threads := s.threads[t := Pulling(false)])
      else
        var others := if PullWakes(max, s.contents) then Map(Woken, s.threads) else s.threads;
        s.(contents := s.contents[1..], pulled := s.pulled + [s.contents[0]], threads := others[t := Outside])
    case Spurious(_) => s.(threads := s.threads[t := Woken(s.threads[t])])
  }

  /**
   * The step of the machine for queue_push is what the list does: it blocks and leaves the caller asleep, or the
   * element goes in, and with the broadcast everybody else wakes up.
   */
  method PushStep<T>(q: Queue<T>, x: T, ghost s: State<T>, ghost t: nat) returns (blocked: bool, broadcast: bool)
    requires q.Valid() && q.Contents() == s.contents && Enabled(s, Push(t)) && s.threads[t].item == x
    modifies q, q.nodes
    ensures q.Valid()
    ensures var s' := Do(q.maxSize, s, Push(t));
      && q.Contents() == s'.contents
      && s'.pushed == (if blocked then s.pushed else s.pushed + [x]) && s'.pulled == s.pulled
      && |s'.threads| == |s.threads| && s'.threads[t] == (if blocked then Pushing(x, false) else Outside)
      && forall u :: 0 <= u < |s.threads| && u != t ==> s'.threads[u] == if broadcast then Woken(s.threads[u]) else s.threads[u]
  {
    blocked, broadcast := q.PushRegion(x);
  }

  /** The same for queue_pull, which blocks or returns the element taken from the list. */
  method PullStep<T>(q: Queue<T>, ghost s: State<T>, ghost t: nat) returns (taken: Option<T>, broadcast: bool)
    requires q.Valid() && q.Contents() == s.contents && Enabled(s, Action<T>.Pull(t))
    modifies q
    ensures q.Valid()
    ensures var s' := Do(q.maxSize, s, Action<T>.Pull(t));
      && q.Contents() == s'.contents
      && s'.pulled == (if taken.None? then s.pulled else s.pulled + [taken.value]) && s'.pushed == s.pushed
      && |s'.threads| == |s.threads| && s'.threads[t] == (if taken.None? then Pulling(false) else Outside)
      && forall u :: 0 <= u < |s.threads| && u != t ==> s'.threads[u] == if broadcast then Woken(s.threads[u]) else s.threads[u]
  {
    taken, broadcast := q.PullRegion();
    assert taken.Some? ==> s.contents[0] == taken.value && s.contents[1..] == q.Contents();
  }

  ghost predicate Init<T>(s: State<T>) {
    && s.contents == [] && s.pushed == [] && s.pulled == [] && s.pushCalls == 0 && s.pullCalls == 0
    && forall t :: 0 <= t < |s.threads| ==> s.threads[t].Outside?
  }

  // ---- The invariant ---------------------------------------------------------------------------

  datatype Place = Producer | Consumer

  predicate IsAt<T>(x: Status<T>, k: Place) {
    match k
    case Producer => x.Pushing?
    case Consumer => x.Pulling?
  }

  function At<T>(k: Place): Status<T> -> bool {
    (x: Status<T>) => IsAt(x, k)
  }

  /** Elements leave in the order they entered, each once, and never more than max are held. */
  ghost predicate Fifo<T>(max: int, s: State<T>) {
    s.pushed == s.pulled + s.contents && (max > 0 ==> |s.contents| <= max)
  }

  /** No lost wake-up: a consumer sleeps only while the queue is empty, a producer only while it is full. */
  ghost predicate SleepersMustWait<T>(max: int, s: State<T>) {
    && (forall t :: 0 <= t < |s.threads| && s.threads[t].Pulling? && !s.threads[t].awake ==> s.contents == [])
    && (forall t :: 0 <= t < |s.threads| && s.threads[t].Pushing? && !s.threads[t].awake ==> Full(max, s.contents))
  }

  ghost predicate Calls<T>(s: State<T>) {
    && s.pushCalls == |s.pushed| + Count(s.threads, At(Producer))
    && s.pullCalls == |s.pulled| + Count(s.threads, At(Consumer))
  }

  ghost predicate Inv<T>(max: int, s: State<T>) {
    Fifo(max, s) && SleepersMustWait(max, s) && Calls(s)
  }

  lemma InitInv<T>(max: int, s: State<T>)
    requires Init(s)
    ensures Inv(max, s)
  {
    CountZero(s.threads, At(Producer));
    CountZero(s.threads, At(Consumer));
  }

  lemma CountStep<T>(max: int, s: State<T>, a: Action<T>, k: Place)
    requires Enabled(s, a)
    ensures var t := Do(max, s, a);
      |t.threads| == |s.threads| &&
      Count(t.threads, At(k)) + (if IsAt(s.threads[a.t], k) then 1 else 0) ==
      Count(s.threads, At(k)) + (if IsAt(t.threads[a.t], k) then 1 else 0)
  {
    hide Count;
    CountSame(s.threads, Map(Woken, s.threads), At(k));
    CountUpdate(Map(Woken, s.threads), a.t, Outside, At(k));
    CountUpdate(s.threads, a.t, Do(max, s, a).threads[a.t], At(k));
  }

  lemma KeepsFifo<T>(max: int, s: State<T>, a: Action<T>)
    requires Fifo(max, s) && Enabled(s, a)
    ensures Fifo(max, Do(max, s, a))
  {
    if a.Pull? && s.contents != [] {
      assert s.contents == [s.contents[0]] + s.contents[1..];
    }
  }

  lemma KeepsSleepers<T>(max: int, s: State<T>, a: Action<T>)
    requires SleepersMustWait(max, s) && Enabled(s, a)
    ensures SleepersMustWait(max, Do(max, s, a))
  {}

  lemma KeepsCalls<T>(max: int, s: State<T>, a: Action<T>)
    requires Calls(s) && Enabled(s, a)
    ensures Calls(Do(max, s, a))
  {
    hide Count;
    CountStep(max, s, a, Producer);
    CountStep(max, s, a, Consumer);
  }

  /** Every step keeps the invariant: the queue refines a FIFO sequence under any interleaving. */
  lemma KeepsInv<T>(max: int, s: State<T>, a: Action<T>)
    requires Inv(max, s) && Enabled(s, a)
    ensures Inv(max, Do(max, s, a))
  {
    hide Fifo, SleepersMustWait, Calls;
    KeepsFifo(max, s, a);
    KeepsSleepers(max, s, a);
    KeepsCalls(max, s, a);
  }

  // ---- What enters and what leaves --------------------------------------------------------------

  /** A run from s: each action, calls and spurious wake-ups included, is enabled where it is taken. */
  ghost predicate Traces<T>(max: int, s: State<T>, run: seq<Action<T>>)
    decreases |run|, 0
  {
    run == [] || (Traces(max, s, run[..|run| - 1]) && Enabled(Reached(max, s, run[..|run| - 1]), run[|run| - 1]))
  }

  ghost function Reached<T>(max: int, s: State<T>, run: seq<Action<T>>): State<T>
    requires Traces(max, s, run)
    decreases |run|, 1
  {
    if run == [] then s else Do(max, Reached(max, s, run[..|run| - 1]), run[|run| - 1])
  }

  /** The elements of all calls of queue_push along a run. */
  ghost function Given<T>(run: seq<Action<T>>): multiset<T> {
    if run == [] then multiset{}
    else Given(run[..|run| - 1]) + if run[|run| - 1].CallPush? then multiset{run[|run| - 1].item} else multiset{}
  }

  /** The element of the last call of queue_push by thread t. */
  ghost function LastCall<T>(run: seq<Action<T>>, t: nat): Option<T> {
    if run == [] then None
    else if run[|run| - 1].CallPush? && run[|run| - 1].t == t then Some(run[|run| - 1].item)
    else LastCall(run[..|run| - 1], t)
  }

  /** Whether a thread has element e in hand, to be pushed. */
  ghost function Holding<T>(e: T): Status<T> -> bool {
    (x: Status<T>) => x.Pushing? && x.item == e
  }

  // Occurrences of e that have entered the queue or are in hand.
  ghost function Seen<T>(s: State<T>, e: T): nat {
    multiset(s.pushed)[e] + Count(s.threads, Holding(e))
  }

  lemma StepSees<T>(max: int, s: State<T>, a: Action<T>, e: T)
    requires Enabled(s, a)
    ensures Seen(Do(max, s, a), e) == Seen(s, e) + if a.CallPush? && a.item == e then 1 else 0
  {
    hide Count;
    CountSame(s.threads, Map(Woken, s.threads), Holding(e));
    CountUpdate(Map(Woken, s.threads), a.t, Outside, Holding(e));
    CountUpdate(s.threads, a.t, Do(max, s, a).threads[a.t], Holding(e));
    if a.Push? {
      assert multiset(s.pushed + [s.threads[a.t].item]) == multiset(s.pushed) + multiset{s.threads[a.t].item};
    }
  }

  /** Over every run, what has entered the queue and what is in hand are exactly the elements of the calls made. */
  lemma {:induction false} NothingMadeUp<T>(max: int, s: State<T>, run: seq<Action<T>>, e: T)
    requires Init(s) && Traces(max, s, run)
    ensures multiset(Reached(max, s, run).pushed)[e] + Count(Reached(max, s, run).threads, Holding(e)) == Given(run)[e]
    decreases |run|
  {
    if run == [] {
      CountZero(s.threads, Holding(e));
    } else {
      var n := |run| - 1;
      hide Count, Do, Init, Enabled;
      NothingMadeUp(max, s, run[..n], e);
      StepSees(max, Reached(max, s, run[..n]), run[n], e);
    }
  }

  /** A pushing thread has the element of its own last call in hand, asleep or awake. */
  lemma {:induction false} HoldsItsCall<T>(max: int, s: State<T>, run: seq<Action<T>>, t: nat)
    requires Init(s) && Traces(max, s, run) && t < |Reached(max, s, run).threads|
    requires Reached(max, s, run).threads[t].Pushing?
    ensures LastCall(run, t) == Some(Reached(max, s, run).threads[t].item)
    decreases |run|
  {
    if run != [] {
      var n := |run| - 1;
      var u := Reached(max, s, run[..n]);
      if !(run[n].CallPush? && run[n].t == t) {
        KeepsItem(max, u, run[n], t);
        HoldsItsCall(max, s, run[..n], t);
      }
    }
  }

  lemma KeepsItem<T>(max: int, s: State<T>, a: Action<T>, t: nat)
    requires Enabled(s, a) && !(a.CallPush? && a.t == t)
    requires t < |Do(max, s, a).threads| && Do(max, s, a).threads[t].Pushing?
    ensures t < |s.threads| && s.threads[t].Pushing? && s.threads[t].item == Do(max, s, a).threads[t].item
  {}

  /**
   * A step of queue_push that does not block puts the element with which this thread called at the end of the
   * queue; one of queue_pull that does not block takes the first.
   */
  lemma EntersAndLeaves<T>(max: int, s: State<T>, run: seq<Action<T>>, a: Action<T>)
    requires Init(s) && Traces(max, s, run) && Enabled(Reached(max, s, run), a) && Working(a)
    ensures var u, v := Reached(max, s, run), Do(max, Reached(max, s, run), a);
      && (a.Push? ==> LastCall(run, a.t).Some?)
      && (a.Push? && !Full(max, u.contents) ==>
            v.contents == u.contents + [LastCall(run, a.t).value] && v.pushed == u.pushed + [LastCall(run, a.t).value]
            && v.pulled == u.pulled && v.threads[a.t] == Outside)
      && (a.Pull? && u.contents != [] ==>
            u.contents == [v.pulled[|v.pulled| - 1]] + v.contents && v.pulled == u.pulled + [u.contents[0]]
            && v.pushed == u.pushed && v.threads[a.t] == Outside)
      && ((a.Push? && Full(max, u.contents)) || (a.Pull? && u.contents == []) ==>
            v.contents == u.contents && v.pushed == u.pushed && v.pulled == u.pulled && Asleep(v.threads[a.t]))
  {
    if a.Push? {
      HoldsItsCall(max, s, run, a.t);
    }
  }

  // ---- Nobody waits without need ----------------------------------------------------------------

  /** Nothing can happen any more but new calls and spurious wake-ups. */
  ghost predicate Settled<T(!new)>(s: State<T>) {
    forall a: Action<T> :: Enabled(s, a) ==> a.CallPush? || a.CallPull? || a.Spurious?
  }

  predicate Working<T>(a: Action<T>) {
    a.Push? || a.Pull?
  }

  /**
   * Once settled, as many pulls have returned as there are pushes and pulls to match: pulls
   * wait only if every push made has been consumed, and pushes wait only on a full queue.
   */
  lemma SettledMeansServed<T(!new)>(max: int, s: State<T>)
    requires Inv(max, s) && Settled(s)
    ensures |s.pulled| == Min(s.pushCalls, s.pullCalls)
    ensures |s.pushed| == (if max > 0 then Min(s.pushCalls, s.pullCalls + max) else s.pushCalls)
  {
    hide Count;
    forall t | 0 <= t < |s.threads| ensures s.threads[t].Outside? || Asleep(s.threads[t]) {
      var push: Action<T> := Push(t);
      var pull: Action<T> := Pull(t);
      assert !Enabled(s, push) && !Enabled(s, pull);
    }
    CountZero(s.threads, At(Producer));
    CountZero(s.threads, At(Consumer));
  }

  // ---- Settling takes a bounded number of steps ---------------------------------------------------

  // m outweighs what one broadcast can wake
  function Effort<T>(m: nat): Status<T> -> nat {
    (x: Status<T>) => if x.Outside? then 0 else m + if x.awake then 1 else 0
  }

  function Work<T>(ts: seq<Status<T>>, m: nat): nat {
    Sum(ts, Effort(m))
  }

  lemma WorkDrops<T>(max: int, s: State<T>, a: Action<T>)
    requires Enabled(s, a) && Working(a)
    ensures Work(Do(max, s, a).threads, |s.threads| + 1) < Work(s.threads, |s.threads| + 1)
  {
    var t := Do(max, s, a);
    var m := |s.threads| + 1;
    hide Sum;
    SumGrowth(s.threads, Map(Woken, s.threads), Effort(m), 1);
    SumUpdate(Map(Woken, s.threads), a.t, Outside, Effort(m));
    SumUpdate(s.threads, a.t, t.threads[a.t], Effort(m));
  }

  ghost predicate IsRun<T>(max: int, s: State<T>, run: seq<Action<T>>)
    decreases |run|
  {
    run == [] || (Working(run[0]) && Enabled(s, run[0]) && IsRun(max, Do(max, s, run[0]), run[1..]))
  }

  ghost function After<T>(max: int, s: State<T>, run: seq<Action<T>>): State<T>
    requires IsRun(max, s, run)
    decreases |run|
  {
    if run == [] then s else After(max, Do(max, s, run[0]), run[1..])
  }

  /**
   * Without new calls or spurious wake-ups the queue settles within `Work` steps, and then no
   * wake-up has been lost: the calls made so far have been served as far as they can be.
   */
  lemma {:induction false} RunsSettle<T(!new)>(max: int, s: State<T>, run: seq<Action<T>>)
    requires Inv(max, s) && IsRun(max, s, run)
    ensures |run| <= Work(s.threads, |s.threads| + 1)
    ensures Inv(max, After(max, s, run))
    ensures Settled(After(max, s, run)) ==>
      && |After(max, s, run).pulled| == Min(s.pushCalls, s.pullCalls)
      && |After(max, s, run).pushed| == (if max > 0 then Min(s.pushCalls, s.pullCalls + max) else s.pushCalls)
    ensures After(max, s, run).pushCalls == s.pushCalls && After(max, s, run).pullCalls == s.pullCalls
    decreases |run|
  {
    hide Inv, Work, Settled, Count, Min;
    if run == [] {
      if Settled(s) { SettledMeansServed(max, s); }
    } else {
      KeepsInv(max, s, run[0]);
      WorkDrops(max, s, run[0]);
      RunsSettle(max, Do(max, s, run[0]), run[1..]);
    }
  }
}
