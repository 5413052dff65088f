/**
 * savvy_scheduler/libscheduler.c: one processor, a queue kept sorted by the scheme's comparer,
 * and the bookkeeping of each job. Times are real numbers, in any order unless a property says
 * otherwise. libpriqueue is a stable sorted queue.
 */
module Scheduler {
  import opened Basics
  import opened Seqs
  import Bits

  datatype Scheme = FCFS | PRI | PPRI | PSRTF | RR | SJF

  datatype Info = Info(priority: int, runtime: real, arrival: real, start: real, end: real, rr: real, used: real)

  // ---- The comparers (lines 72-122) ---------------------------------------------------------

  function CompareFcfs(a: Info, b: Info): int {
    if a.arrival < b.arrival then -1 else if b.arrival < a.arrival then 1 else 0
  }

  function ComparePri(a: Info, b: Info): int {
    if a.priority < b.priority then -1 else if a.priority > b.priority then 1 else CompareFcfs(a, b)
  }

  function ComparePsrtf(a: Info, b: Info): int {
    var remainA, remainB := a.runtime - a.used, b.runtime - b.used;
    if remainA < remainB then -1 else if remainA > remainB then 1 else CompareFcfs(a, b)
  }

  function CompareRr(a: Info, b: Info): int {
    if a.rr < b.rr then -1 else if a.rr > b.rr then 1 else 0
  }

  function CompareSjf(a: Info, b: Info): int {
    if a.runtime < b.runtime then -1 else if b.runtime < a.runtime then 1 else CompareFcfs(a, b)
  }

  function Compare(s: Scheme, a: Info, b: Info): int {
    match s
    case FCFS => CompareFcfs(a, b)
    case PRI => ComparePri(a, b)
    case PPRI => ComparePri(a, b)
    case PSRTF => ComparePsrtf(a, b)
    case RR => CompareRr(a, b)
    case SJF => CompareSjf(a, b)
  }

  predicate Preemptive(s: Scheme) {
    s == PPRI || s == PSRTF || s == RR
  }

  /** What each scheme promises of the job it runs next and any other one; equal keys fall back on the arrival. */
  ghost predicate Precedes(s: Scheme, next: Info, other: Info) {
    && (s == FCFS ==> next.arrival <= other.arrival)
    && (s == PRI || s == PPRI ==>
          next.priority <= other.priority && (next.priority == other.priority ==> next.arrival <= other.arrival))
    && (s == PSRTF ==>
          && next.runtime - next.used <= other.runtime - other.used
          && (next.runtime - next.used == other.runtime - other.used ==> next.arrival <= other.arrival))
    && (s == SJF ==>
          next.runtime <= other.runtime && (next.runtime == other.runtime ==> next.arrival <= other.arrival))
    && (s == RR ==> next.rr <= other.rr)
  }

  /** A comparer puts a job first, or calls the two equal, exactly when the scheme lets it run first. */
  lemma CompareDecides(s: Scheme, a: Info, b: Info)
    ensures Compare(s, a, b) <= 0 <==> Precedes(s, a, b)
  {}

  /** Each comparer orders any two jobs consistently, whichever comes first, and chains. */
  lemma CompareIsPreorder(s: Scheme, a: Info, b: Info, c: Info)
    ensures Compare(s, a, b) == -Compare(s, b, a)
    ensures Compare(s, a, b) <= 0 && Compare(s, b, c) <= 0 ==> Compare(s, a, c) <= 0
  {}

  // ---- The priority queue -------------------------------------------------------------------------

  type Infos = map<nat, Info>

  /** priqueue_offer: behind every job that compares as not later. */
  function Offer(s: Scheme, infos: Infos, q: seq<nat>, x: nat): (r: seq<nat>)
    requires x in infos && forall j :: j in q ==> j in infos
    ensures |r| == |q| + 1
    ensures forall j :: j in r <==> j in q || j == x
  {
    if q == [] then [x]
    else if Compare(s, infos[q[0]], infos[x]) <= 0 then [q[0]] + Offer(s, infos, q[1..], x)
    else [x] + q
  }

  ghost predicate Sorted(s: Scheme, infos: Infos, q: seq<nat>) {
    && (forall j :: j in q ==> j in infos)
    && forall i, k :: 0 <= i < k < |q| ==> Compare(s, infos[q[i]], infos[q[k]]) <= 0
  }

  ghost predicate Before(s: Scheme, infos: Infos, x: nat, q: seq<nat>) {
    x in infos && x !in q && forall j :: j in q ==> j in infos && Compare(s, infos[x], infos[j]) <= 0
  }

  lemma SortedCons(s: Scheme, infos: Infos, x: nat, q: seq<nat>)
    requires Sorted(s, infos, q) && Distinct(q) && Before(s, infos, x, q)
    ensures Sorted(s, infos, [x] + q) && Distinct([x] + q)
  {
    hide Compare;
    assert forall i :: 0 <= i < |q| ==> q[i] in q;
  }

  lemma SortedTail(s: Scheme, infos: Infos, q: seq<nat>)
    requires Sorted(s, infos, q) && Distinct(q) && q != []
    ensures Sorted(s, infos, q[1..]) && Distinct(q[1..]) && Before(s, infos, q[0], q[1..])
  {
    hide Compare;
    assert forall i :: 0 <= i < |q| - 1 ==> q[1..][i] == q[i + 1];
    forall j | j in q[1..] ensures j != q[0] && j in infos && Compare(s, infos[q[0]], infos[j]) <= 0 {
      var i :| 0 <= i < |q| - 1 && q[1..][i] == j;
      assert q[i + 1] == j;
    }
  }

  /** The queue stays sorted, with every job in it once. */
  lemma {:induction false} OfferSorted(s: Scheme, infos: Infos, q: seq<nat>, x: nat)
    requires Sorted(s, infos, q) && Distinct(q) && x in infos && x !in q
    ensures Sorted(s, infos, Offer(s, infos, q, x)) && Distinct(Offer(s, infos, q, x))
  {
    if q == [] {
    } else if Compare(s, infos[q[0]], infos[x]) <= 0 {
      SortedTail(s, infos, q);
      OfferSorted(s, infos, q[1..], x);
      hide Compare, Sorted, Distinct;
      SortedCons(s, infos, q[0], Offer(s, infos, q[1..], x));
    } else {
      XFirst(s, infos, q, x);
      hide Compare, Sorted, Distinct;
      SortedCons(s, infos, x, q);
    }
  }

  lemma XFirst(s: Scheme, infos: Infos, q: seq<nat>, x: nat)
    requires Sorted(s, infos, q) && Distinct(q) && x in infos && x !in q
    requires q != [] && Compare(s, infos[q[0]], infos[x]) > 0
    ensures Before(s, infos, x, q)
  {
    hide Compare;
    CompareIsPreorder(s, infos[q[0]], infos[x], infos[x]);
    forall j | j in q ensures j in infos && Compare(s, infos[x], infos[j]) <= 0 {
      var k :| 0 <= k < |q| && q[k] == j;
      CompareIsPreorder(s, infos[x], infos[q[0]], infos[q[k]]);
    }
  }

  // The last place, exactly when nobody in the queue comes after x.
  lemma {:induction false} OfferLast(s: Scheme, infos: Infos, q: seq<nat>, x: nat)
    requires x in infos && x !in q && forall j :: j in q ==> j in infos
    ensures Offer(s, infos, q, x) == q + [x] <==> forall j :: j in q ==> Compare(s, infos[j], infos[x]) <= 0
  {
    hide Compare;
    if q != [] {
      OfferLast(s, infos, q[1..], x);
      assert q == [q[0]] + q[1..];
      assert Compare(s, infos[q[0]], infos[x]) <= 0 ==> Offer(s, infos, q, x)[1..] == Offer(s, infos, q[1..], x);
      assert (q + [x])[1..] == q[1..] + [x];
    }
  }

  // ---- The bookkeeping ------------------------------------------------------------------------------

  /**
   * What the caller knows and C does not store: the time of the last call, the job on the
   * processor and, for each job, the time spent in the queue before its present stay there, the
   * start of that stay, and the time it first got the processor.
   */
  datatype Trace = Trace(now: real, running: Option<nat>, waited: map<nat, real>, entered: map<nat, real>, first: map<nat, real>)

  ghost predicate QueueOk(s: Scheme, infos: Infos, q: seq<nat>, running: Option<nat>) {
    && Sorted(s, infos, q) && Distinct(q)
    && infos.Keys == Elements(q) + (if running.Some? then {running.value} else {})
    && (running.Some? ==> running.value !in q)
  }

  /** All of a job's life so far is accounted for, as time used or as time in the queue. */
  ghost predicate TimesOk(infos: Infos, q: set<nat>, t: Trace) {
    && infos.Keys == t.waited.Keys && infos.Keys == t.entered.Keys
    && (forall j :: j in infos && j in q ==> infos[j].used + t.waited[j] == t.entered[j] - infos[j].arrival)
    && (forall j :: j in infos && t.running == Some(j) ==>
          infos[j].used + t.waited[j] == infos[j].rr - infos[j].arrival)
  }

  /** The jobs that have had the processor. */
  ghost predicate StartsOk(infos: Infos, q: set<nat>, t: Trace) {
    && (forall j :: j in infos && j in q && j !in t.first ==> infos[j].used == 0.0)
    && (t.running.Some? ==> t.running.value in t.first)
    && (forall j :: j in t.first ==> j in infos)
  }

  ghost predicate Ok(s: Scheme, infos: Infos, q: seq<nat>, t: Trace) {
    QueueOk(s, infos, q, t.running) && TimesOk(infos, Elements(q), t) && StartsOk(infos, Elements(q), t)
  }

  /** No call so far came before an earlier one, so the running job was dispatched no earlier than any other. */
  ghost predicate InOrder(infos: Infos, t: Trace) {
    && t.now >= 0.0
    && (forall j :: j in infos ==> infos[j].used >= 0.0 && 0.0 <= infos[j].rr <= t.now)
    && (t.running.Some? && t.running.value in infos ==>
          forall j :: j in infos ==> infos[j].rr <= infos[t.running.value].rr)
  }

  /** start_time is the time of the first dispatch. */
  ghost predicate StartsKept(infos: Infos, first: map<nat, real>) {
    forall j :: j in first && j in infos ==> infos[j].start == first[j]
  }

  /** No queued job has had the processor without using time. */
  ghost predicate NoneIdle(infos: Infos, q: set<nat>, first: map<nat, real>) {
    forall j :: j in first && j in infos && j in q ==> infos[j].used != 0.0
  }

  // A job's record and place in the trace when it arrives, goes back to the queue, or is dispatched.

  function Arrival(priority: int, runtime: real, time: real): Info {
    Info(priority, runtime, time, 0.0, 0.0, 0.0, 0.0)
  }

  function Evicted(i: Info, time: real): Info {
    i.(used := i.used + (time - i.rr))
  }

  function Dispatched(i: Info, time: real): Info {
    i.(rr := time, start := if i.used == 0.0 then time else i.start)
  }

  // The queue is still sorted when a job outside it changes.
  lemma SortedElsewhere(s: Scheme, infos: Infos, infos': Infos, q: seq<nat>)
    requires Sorted(s, infos, q)
    requires forall j :: j in q ==> j in infos' && (j in infos ==> infos'[j] == infos[j])
    ensures Sorted(s, infos', q)
  {
    hide Compare;
  }

  /** A second dispatch at a later time, when the first left no time used: start_time moves. */
  lemma StartMoves(i: Info, time: real, later: real)
    requires i.used == 0.0
    ensures Dispatched(Evicted(Dispatched(i, time), time), later).start == later
  {}

  /** While times go forward, an eviction leaves no time used exactly when it follows the dispatch at once. */
  lemma IdleEviction(i: Info, time: real)
    requires i.used >= 0.0 && i.rr <= time
    ensures Evicted(i, time).used == 0.0 <==> i.used == 0.0 && i.rr == time
  {}

  function ArrivalTrace(t: Trace, x: nat, time: real): Trace {
    t.(now := time, waited := t.waited[x := 0.0], entered := t.entered[x := time])
  }

  function EvictTrace(t: Trace, x: nat, time: real): Trace {
    t.(now := time, running := None, entered := t.entered[x := time])
  }

  function DispatchTrace(t: Trace, x: nat, time: real): Trace
    requires x in t.waited && x in t.entered
  {
    t.(now := time, running := Some(x), waited := t.waited[x := t.waited[x] + (time - t.entered[x])],
       first := FirstAfter(t.first, x, time))
  }

  function FinishTrace(t: Trace, x: nat, time: real): Trace {
    t.(now := time, running := None, waited := t.waited - {x}, entered := t.entered - {x}, first := t.first - {x})
  }

  function FirstAfter(first: map<nat, real>, x: nat, time: real): map<nat, real> {
    if x in first then first else first[x := time]
  }

  lemma BookArrival(infos: Infos, q: set<nat>, t: Trace, x: nat, time: real, i: Info)
    requires TimesOk(infos, q, t) && StartsOk(infos, q, t)
    requires x !in infos && x !in q && (t.running.Some? ==> t.running.value in infos)
    requires i.arrival == time && i.rr == 0.0 && i.used == 0.0
    ensures var t', infos', q' := ArrivalTrace(t, x, time), infos[x := i], q + {x};
      && TimesOk(infos', q', t') && StartsOk(infos', q', t')
      && (InOrder(infos, t) && time >= t.now ==> InOrder(infos', t'))
      && (StartsKept(infos', t'.first) <==> StartsKept(infos, t.first))
      && (NoneIdle(infos', q', t'.first) <==> NoneIdle(infos, q, t.first))
  {}

  lemma BookEvict(infos: Infos, q: set<nat>, t: Trace, x: nat, time: real)
    requires TimesOk(infos, q, t) && StartsOk(infos, q, t)
    requires t.running == Some(x) && x in infos && x !in q
    ensures var t', infos', q' := EvictTrace(t, x, time), infos[x := Evicted(infos[x], time)], q + {x};
      && TimesOk(infos', q', t') && StartsOk(infos', q', t')
      && (InOrder(infos, t) && time >= t.now ==> InOrder(infos', t'))
      && (StartsKept(infos', t'.first) <==> StartsKept(infos, t.first))
      && (NoneIdle(infos', q', t'.first) <==> NoneIdle(infos, q, t.first) && Evicted(infos[x], time).used != 0.0)
  {}

  lemma BookDispatch(infos: Infos, q: set<nat>, t: Trace, x: nat, time: real)
    requires TimesOk(infos, q, t) && StartsOk(infos, q, t)
    requires t.running == None && x in q && x in infos
    ensures x in t.waited && x in t.entered
    ensures var t', infos', q' := DispatchTrace(t, x, time), infos[x := Dispatched(infos[x], time)], q - {x};
      && TimesOk(infos', q', t') && StartsOk(infos', q', t')
      && (InOrder(infos, t) && time >= t.now ==> InOrder(infos', t'))
      && (StartsKept(infos, t.first) ==>
            (StartsKept(infos', t'.first) <==> !(x in t.first && infos[x].used == 0.0 && t.first[x] != time)))
      && (NoneIdle(infos, q, t.first) ==> NoneIdle(infos', q', t'.first))
  {
    var infos' := infos[x := Dispatched(infos[x], time)];
    assert x in FirstAfter(t.first, x, time) && x in infos';
    assert x !in t.first ==> infos'[x].start == time;
  }

  lemma BookFinish(infos: Infos, q: set<nat>, t: Trace, x: nat, time: real)
    requires TimesOk(infos, q, t) && StartsOk(infos, q, t)
    requires t.running == Some(x) && x in infos && x !in q
    ensures var t', infos' := FinishTrace(t, x, time), infos - {x};
      && TimesOk(infos', q, t') && StartsOk(infos', q, t')
      && (InOrder(infos, t) && time >= t.now ==> InOrder(infos', t'))
      && (StartsKept(infos, t.first) ==> StartsKept(infos', t'.first))
      && (NoneIdle(infos, q, t.first) ==> NoneIdle(infos', q, t'.first))
  {}

  lemma QueueArrival(s: Scheme, infos: Infos, infos': Infos, q: seq<nat>, x: nat)
    requires Sorted(s, infos, q) && Distinct(q) && x !in q && x in infos'
    requires forall j :: j in q ==> j in infos' && infos'[j] == infos[j]
    ensures Sorted(s, infos', Offer(s, infos', q, x)) && Distinct(Offer(s, infos', q, x))
    ensures Elements(Offer(s, infos', q, x)) == Elements(q) + {x}
  {
    SortedElsewhere(s, infos, infos', q);
    OfferSorted(s, infos', q, x);
  }

  lemma QueuePoll(s: Scheme, infos: Infos, infos': Infos, q: seq<nat>)
    requires Sorted(s, infos, q) && Distinct(q) && q != []
    requires forall j :: j in q[1..] ==> j in infos' && infos'[j] == infos[j]
    ensures Sorted(s, infos', q[1..]) && Distinct(q[1..])
    ensures Elements(q[1..]) == Elements(q) - {q[0]} && q[0] !in q[1..]
    ensures Before(s, infos, q[0], q[1..])
  {
    SortedTail(s, infos, q);
    SortedElsewhere(s, infos, infos', q[1..]);
    assert q == [q[0]] + q[1..];
  }

  // ---- The scheduler -------------------------------------------------------------------------------

  class Sched {
    const scheme: Scheme
    var infos: Infos
    var queue: seq<nat>
    var jobCount: nat
    var totalWait: real
    var totalTurnaround: real
    var totalResponse: real
    ghost var trace: Trace

    constructor (s: Scheme)
      ensures Valid() && scheme == s && queue == [] && infos == map[] && trace == Trace(0.0, None, map[], map[], map[])
      ensures Ordered() && Started() && Busy()
      ensures jobCount == 0 && totalWait == 0.0 && totalTurnaround == 0.0 && totalResponse == 0.0
    {
      scheme := s;
      infos := map[];
      queue := [];
      jobCount := 0;
      totalWait := 0.0;
      totalTurnaround := 0.0;
      totalResponse := 0.0;
      trace := Trace(0.0, None, map[], map[], map[]);
    }

    ghost predicate Valid()
      reads this
    {
      Ok(scheme, infos, queue, trace)
    }

    /** No call came before an earlier one. */
    ghost predicate Ordered()
      reads this
    {
      InOrder(infos, trace)
    }

    /** Every start_time is that of the job's first dispatch. */
    ghost predicate Started()
      reads this
    {
      StartsKept(infos, trace.first)
    }

    /** No job in the queue has had the processor without using time. */
    ghost predicate Busy()
      reads this
    {
      NoneIdle(infos, Elements(queue), trace.first)
    }

    method NewJob(number: nat, time: real, priority: int, runningTime: real)
      requires Valid() && number !in infos
      modifies this
      ensures Valid()
      ensures infos == old(infos)[number := Info(priority, runningTime, time, 0.0, 0.0, 0.0, 0.0)]
      ensures queue == Offer(scheme, infos, old(queue), number)
      ensures trace == ArrivalTrace(old(trace), number, time)
      ensures jobCount == old(jobCount) && totalWait == old(totalWait)
      ensures totalTurnaround == old(totalTurnaround) && totalResponse == old(totalResponse)
      ensures old(Ordered()) && time >= old(trace).now ==> Ordered()
      ensures (Started() <==> old(Started())) && (Busy() <==> old(Busy()))
    {
      hide TimesOk, StartsOk, InOrder, StartsKept, NoneIdle, Sorted, Distinct, Offer, Compare;
      BookArrival(infos, Elements(queue), trace, number, time, Arrival(priority, runningTime, time));
      QueueArrival(scheme, infos, infos[number := Arrival(priority, runningTime, time)], queue, number);
      infos := infos[number := Info(priority, runningTime, time, 0.0, 0.0, 0.0, 0.0)];
      queue := Offer(scheme, infos, queue, number);
      trace := ArrivalTrace(trace, number, time);
    }

    // The evicted job's time is counted and it goes back to the queue (lines 186-190).
    method Evict(x: nat, time: real)
      requires Valid() && trace.running == Some(x) && x in infos
      modifies this
      ensures Valid() && trace == EvictTrace(old(trace), x, time)
      ensures infos == old(infos)[x := Evicted(old(infos)[x], time)]
      ensures queue == Offer(scheme, infos, old(queue), x)
      ensures jobCount == old(jobCount) && totalWait == old(totalWait)
      ensures totalTurnaround == old(totalTurnaround) && totalResponse == old(totalResponse)
      ensures old(Ordered()) && time >= old(trace).now ==> Ordered()
      ensures Started() <==> old(Started())
      ensures Busy() <==> old(Busy()) && infos[x].used != 0.0
    {
      hide Ok, Offer, InOrder, StartsKept, NoneIdle;
      OkEvict(scheme, infos, queue, trace, x, time);
      trace := EvictTrace(trace, x, time);
      infos := infos[x := infos[x].(used := infos[x].used + (time - infos[x].rr))];
      queue := Offer(scheme, infos, queue, x);
    }

    // priqueue_poll, and the dispatch of what it returns (lines 191-198 and 205-212).
    method Dispatch(time: real) returns (next: Option<nat>)
      requires Valid() && trace.running == None
      modifies this
      ensures Valid() && trace.running == next && trace.now == time
      ensures next == if old(queue) == [] then None else Some(old(queue)[0])
      ensures queue == if old(queue) == [] then [] else old(queue)[1..]
      ensures next.Some? ==> next.value in old(infos) && infos == old(infos)[next.value := Dispatched(old(infos)[next.value], time)]
      ensures next.Some? ==> Before(scheme, old(infos), next.value, queue)
      ensures next.None? ==> infos == old(infos)
      ensures next.Some? ==> next.value in old(trace).waited && next.value in old(trace).entered
      ensures trace == if next.Some? then DispatchTrace(old(trace), next.value, time) else old(trace).(now := time)
      ensures jobCount == old(jobCount) && totalWait == old(totalWait)
      ensures totalTurnaround == old(totalTurnaround) && totalResponse == old(totalResponse)
      ensures old(Ordered()) && time >= old(trace).now ==> Ordered()
      ensures old(Started()) ==>
        (Started() <==> !(next.Some? && Restarts(old(infos), old(trace).first, next.value, time)))
      ensures old(Busy()) ==> Busy()
    {
      hide Ok, Before, InOrder, StartsKept, NoneIdle, Restarts;
      OkDispatch(scheme, infos, queue, trace, time);
      if queue == [] {
        trace := trace.(now := time);
        return None;
      }
      var x := queue[0];
      trace := DispatchTrace(trace, x, time);
      queue := queue[1..];
      if infos[x].used == 0.0 {
        infos := infos[x := infos[x].(start := time)];
      }
      infos := infos[x := infos[x].(rr := time)];
      assert infos == old(infos)[x := Dispatched(old(infos)[x], time)];
      next := Some(x);
    }

    /** The jobs as they stand when the next one is chosen. */
    ghost function Counted(evicted: Option<nat>, time: real): Infos
      reads this
    {
      if Preemptive(scheme) && evicted.Some? && evicted.value in infos then
        infos[evicted.value := Evicted(infos[evicted.value], time)]
      else infos
    }

    /**
     * The next job is the evicted one when the scheme does not preempt, and otherwise one that
     * precedes all others by the scheme, among the queue and the evicted job. No other job's record changes, so
     * no job's key changes while it is queued.
     *
     * Under round robin the queue just rotates, exactly when no queued job was dispatched later
     * than the evicted one. start_time stays that of the first dispatch exactly when the job
     * dispatched does not restart: when it has had the processor at another time without using any.
     */
    method QuantumExpired(evicted: Option<nat>, time: real) returns (next: Option<nat>)
      requires Valid() && evicted == trace.running
      modifies this
      ensures Valid() && trace.running == next && trace.now == time
      ensures next.None? <==> old(queue) == [] && evicted.None?
      ensures (scheme == FCFS || scheme == PRI || scheme == SJF) && evicted.Some? ==>
        next == evicted && queue == old(queue) && infos == old(infos) && trace == old(trace).(now := time)
      ensures evicted.Some? ==> evicted.value in old(infos) && evicted.value !in old(queue)
      ensures forall j :: j in old(queue) ==> j in old(infos)
      ensures next.Some? && (scheme == PPRI || scheme == PSRTF || scheme == RR || evicted.None?) ==>
        ghost var now := old(Counted(evicted, time));
        && next.value in now
        && (next == evicted || next.value in old(queue))
        && (forall j :: j in old(queue) || evicted == Some(j) ==>
              j in now && Precedes(scheme, now[next.value], now[j]))
        && infos == now[next.value := Dispatched(now[next.value], time)]
        && [next.value] + queue == (if evicted.None? then old(queue) else Offer(scheme, now, old(queue), evicted.value))
        && (old(Started()) ==> (Started() <==> !Restarts(now, old(trace).first, next.value, time)))
      ensures next.Some? && (scheme == PPRI || scheme == PSRTF || scheme == RR || evicted.None?) ==>
        ghost var t := if evicted.None? then old(trace) else EvictTrace(old(trace), evicted.value, time);
        next.value in t.waited && next.value in t.entered && trace == DispatchTrace(t, next.value, time)
      ensures next.None? ==> queue == [] && infos == old(infos) && trace == old(trace).(now := time)
      ensures scheme == RR && evicted.Some? ==>
        ([next.value] + queue == old(queue) + [evicted.value] <==>
          (forall j :: j in old(queue) ==> old(infos)[j].rr <= old(infos)[evicted.value].rr))
      ensures scheme == RR && evicted.Some? && old(Ordered()) ==> [next.value] + queue == old(queue) + [evicted.value]
      ensures old(Ordered()) && time >= old(trace).now ==> Ordered()
      ensures old(Busy()) && !(Preemptive(scheme) && evicted.Some? && Evicted(old(infos)[evicted.value], time).used == 0.0) ==>
        Busy() && (old(Started()) ==> Started())
      ensures jobCount == old(jobCount) && totalWait == old(totalWait)
      ensures totalTurnaround == old(totalTurnaround) && totalResponse == old(totalResponse)
    {
      hide Ok, Offer, Compare, Precedes, Before, InOrder, StartsKept, NoneIdle, Restarts;
      RunningKnown(scheme, infos, queue, trace);
      ghost var before := queue;
      if Preemptive(scheme) {
        if evicted.Some? {
          RoundRobinLast(scheme, infos, queue, trace, evicted.value, time);
          Evict(evicted.value, time);
        }
        BusyRestartsNobody(infos, queue, trace.first, time);
        ghost var all, now := queue, infos;
        next := Dispatch(time);
        if next.Some? { LeastFirst(scheme, now, all, next.value); }
      } else {
        if evicted.Some? {
          OkLater(scheme, infos, queue, trace, time);
          trace := trace.(now := time);
          return evicted;
        } else {
          BusyRestartsNobody(infos, queue, trace.first, time);
          next := Dispatch(time);
          if next.Some? { LeastFirst(scheme, old(infos), before, next.value); }
        }
      }
    }

    /**
     * The finished job leaves with its totals: its turnaround is the time it used plus the time
     * it spent in the queue, and its response time runs to its start_time, the first dispatch
     * while start times are kept.
     */
    method JobFinished(x: nat, time: real)
      requires Valid() && trace.running == Some(x)
      modifies this
      ensures Valid() && trace.running == None && trace.now == time
      ensures x in old(infos) && x in old(trace).waited && x in old(trace).first
      ensures infos == old(infos) - {x} && queue == old(queue) && jobCount == old(jobCount) + 1
      ensures trace == FinishTrace(old(trace), x, time)
      ensures var i, waited := old(infos)[x], old(trace).waited[x];
        var used := i.used + (time - i.rr);
        && totalTurnaround == old(totalTurnaround) + (used + waited)
        && totalResponse == old(totalResponse) + (i.start - i.arrival)
        && (old(Started()) ==> i.start == old(trace).first[x])
        && totalWait == old(totalWait) + (used + waited - i.runtime)
        && (used == i.runtime ==> totalWait == old(totalWait) + waited)
      ensures old(Ordered()) && time >= old(trace).now ==> Ordered()
      ensures (old(Started()) ==> Started()) && (old(Busy()) ==> Busy())
    {
      hide Ok, InOrder, NoneIdle;
      OkFinish(scheme, infos, queue, trace, x, time);
      hide StartsKept;
      var info := infos[x];
      info := info.(end := time);
      info := info.(used := info.used + (time - info.rr));
      totalResponse := totalResponse + (info.start - info.arrival);
      totalTurnaround := totalTurnaround + (info.end - info.arrival);
      totalWait := totalWait + (info.end - info.arrival - info.runtime);
      jobCount := jobCount + 1;
      infos := infos - {x};
      trace := FinishTrace(trace, x, time);
    }
  }

  /** The job has had the processor at another time, and has used no time. */
  predicate Restarts(infos: Infos, first: map<nat, real>, x: nat, time: real)
    requires x in infos
  {
    x in first && infos[x].used == 0.0 && first[x] != time
  }

  lemma BusyRestartsNobody(infos: Infos, q: seq<nat>, first: map<nat, real>, time: real)
    ensures NoneIdle(infos, Elements(q), first) ==> forall j :: j in q && j in infos ==> !Restarts(infos, first, j, time)
  {}

  lemma OkFinish(s: Scheme, infos: Infos, q: seq<nat>, t: Trace, x: nat, time: real)
    requires Ok(s, infos, q, t) && t.running == Some(x)
    ensures x in infos && x in t.waited && x in t.first
    ensures infos[x].used + t.waited[x] == infos[x].rr - infos[x].arrival
    ensures var t', infos' := FinishTrace(t, x, time), infos - {x};
      && Ok(s, infos', q, t')
      && (InOrder(infos, t) && time >= t.now ==> InOrder(infos', t'))
      && (StartsKept(infos, t.first) ==> StartsKept(infos', t'.first))
      && (NoneIdle(infos, Elements(q), t.first) ==> NoneIdle(infos', Elements(q), t'.first))
  {
    assert x in infos.Keys;
    BookFinish(infos, Elements(q), t, x, time);
    hide Compare, Distinct, TimesOk, StartsOk, InOrder, StartsKept, NoneIdle;
    assert forall j :: j in q ==> j in Elements(q) && j in infos && j != x;
    SortedElsewhere(s, infos, infos - {x}, q);
  }

  lemma OkLater(s: Scheme, infos: Infos, q: seq<nat>, t: Trace, time: real)
    requires Ok(s, infos, q, t)
    ensures Ok(s, infos, q, t.(now := time))
    ensures InOrder(infos, t) && time >= t.now ==> InOrder(infos, t.(now := time))
  {
    hide Compare, Distinct, Sorted;
  }

  // What QuantumExpired needs to know of the state it starts from.
  lemma RunningKnown(s: Scheme, infos: Infos, q: seq<nat>, t: Trace)
    requires Ok(s, infos, q, t)
    ensures t.running.Some? ==> t.running.value in infos && t.running.value !in q
    ensures forall j :: j in q ==> j in infos
  {
    hide Compare, Distinct, StartsOk, TimesOk;
    if t.running.Some? { assert t.running.value in infos.Keys; }
  }

  lemma LeastFirst(s: Scheme, infos: Infos, q: seq<nat>, x: nat)
    requires q != [] && q[0] == x && Before(s, infos, x, q[1..])
    ensures forall j :: j in q ==> j in infos && Precedes(s, infos[x], infos[j])
  {
    hide Compare, Precedes;
    CompareIsPreorder(s, infos[x], infos[x], infos[x]);
    assert q == [x] + q[1..];
    forall j | j in q ensures j in infos && Precedes(s, infos[x], infos[j]) {
      CompareDecides(s, infos[x], infos[j]);
    }
  }

  /** Under round robin the evicted job goes to the end exactly when nobody in the queue was dispatched after it. */
  lemma RoundRobinLast(s: Scheme, infos: Infos, q: seq<nat>, t: Trace, x: nat, time: real)
    requires Ok(s, infos, q, t) && t.running == Some(x) && x in infos && x !in q && forall j :: j in q ==> j in infos
    ensures var infos' := infos[x := Evicted(infos[x], time)];
      && (forall j :: j in q ==> j in infos')
      && (s == RR ==> (Offer(s, infos', q, x) == q + [x] <==> forall j :: j in q ==> infos[j].rr <= infos[x].rr))
    ensures InOrder(infos, t) ==> forall j :: j in q ==> infos[j].rr <= infos[x].rr
  {
    var infos' := infos[x := Evicted(infos[x], time)];
    RunningIsLatest(infos, t, x);
    hide Ok, InOrder, Offer, Compare;
    if s == RR {
      OfferLast(s, infos', q, x);
      forall j | j in q ensures Compare(s, infos'[j], infos'[x]) <= 0 <==> infos[j].rr <= infos[x].rr {
        RoundRobinOrder(infos'[j], infos'[x]);
      }
    }
  }

  lemma RoundRobinOrder(a: Info, b: Info)
    ensures Compare(RR, a, b) <= 0 <==> a.rr <= b.rr
  {}

  lemma RunningIsLatest(infos: Infos, t: Trace, x: nat)
    requires InOrder(infos, t) ==> t.running == Some(x) && x in infos
    ensures InOrder(infos, t) ==> forall j :: j in infos ==> infos[j].rr <= infos[x].rr
  {}

  lemma OkEvict(s: Scheme, infos: Infos, q: seq<nat>, t: Trace, x: nat, time: real)
    requires Ok(s, infos, q, t) && t.running == Some(x) && x in infos
    ensures var t', infos' := EvictTrace(t, x, time), infos[x := Evicted(infos[x], time)];
      && (forall j :: j in q ==> j in infos')
      && Ok(s, infos', Offer(s, infos', q, x), t')
      && (InOrder(infos, t) && time >= t.now ==> InOrder(infos', t'))
      && (StartsKept(infos', t'.first) <==> StartsKept(infos, t.first))
      && (NoneIdle(infos', Elements(Offer(s, infos', q, x)), t'.first) <==>
            (NoneIdle(infos, Elements(q), t.first) && infos'[x].used != 0.0))
  {
    hide TimesOk, StartsOk, InOrder, StartsKept, NoneIdle, Sorted, Distinct, Offer, Compare;
    var infos' := infos[x := Evicted(infos[x], time)];
    BookEvict(infos, Elements(q), t, x, time);
    assert forall j :: j in q ==> j in Elements(q);
    QueueArrival(s, infos, infos', q, x);
  }

  lemma OkDispatch(s: Scheme, infos: Infos, q: seq<nat>, t: Trace, time: real)
    requires Ok(s, infos, q, t) && t.running == None
    ensures q == [] ==>
      && Ok(s, infos, q, t.(now := time))
      && (InOrder(infos, t) && time >= t.now ==> InOrder(infos, t.(now := time)))
    ensures q != [] ==> q[0] in infos && q[0] in t.waited && q[0] in t.entered && Before(s, infos, q[0], q[1..])
    ensures q != [] ==>
      var t', infos' := DispatchTrace(t, q[0], time), infos[q[0] := Dispatched(infos[q[0]], time)];
      && Ok(s, infos', q[1..], t')
      && (InOrder(infos, t) && time >= t.now ==> InOrder(infos', t'))
      && (StartsKept(infos, t.first) ==> (StartsKept(infos', t'.first) <==> !Restarts(infos, t.first, q[0], time)))
      && (NoneIdle(infos, Elements(q), t.first) ==> NoneIdle(infos', Elements(q[1..]), t'.first))
  {
    hide TimesOk, StartsOk, InOrder, StartsKept, NoneIdle, Sorted, Distinct, Compare, Before;
    if q == [] {
      OkLater(s, infos, q, t, time);
    } else {
      var x := q[0];
      assert x in Elements(q);
      var infos' := infos[x := Dispatched(infos[x], time)];
      BookDispatch(infos, Elements(q), t, x, time);
      forall j | j in q[1..] ensures j in Elements(q) && j in infos && j != x { TailDiffers(q, j); }
      QueuePoll(s, infos, infos', q);
    }
  }

  lemma TailDiffers(q: seq<nat>, j: nat)
    requires Distinct(q) && q != [] && j in q[1..]
    ensures j != q[0] && j in q
  {
    var k :| 0 <= k < |q| - 1 && q[1..][k] == j;
    assert q[k + 1] == j;
  }

  function Running(running: Option<nat>): seq<nat> {
    if running.Some? then [running.value] else []
  }

  /**
   * Round robin without arrivals: the jobs are dispatched in turn, those in the queue in its order and
   * then the one that was running, for any number of quanta, some of them of length 0.
   */
  method FullRound(s: Sched, running: Option<nat>, times: seq<real>) returns (dispatched: seq<Option<nat>>)
    requires s.Valid() && s.scheme == RR && s.Ordered() && running == s.trace.running
    requires Forward(s.trace.now, times)
    modifies s
    ensures s.Valid() && |dispatched| == |times|
    ensures var all := old(s.queue) + Running(running);
      forall i :: 0 <= i < |times| ==> dispatched[i] == InTurn(all, i)
  {
    hide Ok, InOrder, StartsKept, NoneIdle, Restarts, Offer, Compare, Precedes, Preemptive, Evicted, Dispatched, Turned, InTurn;
    ghost var all := s.queue + Running(running);
    dispatched := [];
    var current := running;
    ghost var k := 0;
    NoTurn(all);
    var i := 0;
    while i < |times|
      invariant 0 <= i == |dispatched| <= |times|
      invariant s.Valid() && s.Ordered() && s.trace.running == current
      invariant s.trace.now == if i == 0 then old(s.trace.now) else times[i - 1]
      invariant s.queue + Running(current) == Turned(all, k) && (all != [] ==> k == i % |all|)
      invariant forall j :: 0 <= j < i ==> dispatched[j] == InTurn(all, j)
    {
      ghost var turn := s.queue + Running(current);
      NextTime(old(s.trace.now), times, i);
      current := s.QuantumExpired(current, times[i]);
      dispatched := dispatched + [current];
      assert Running(current) + s.queue == turn;
      NextTurn(all, i, k, s.queue, current);
      k := if k + 1 >= |all| then 0 else k + 1;
      i := i + 1;
    }
  }

  /** Whose turn the i-th quantum is. */
  function InTurn(all: seq<nat>, i: nat): Option<nat> {
    if all == [] then None else Some(all[i % |all|])
  }

  /** The queue, and the running job behind it, after k turns. */
  function Turned(all: seq<nat>, k: nat): seq<nat> {
    if k < |all| then all[k..] + all[..k] else all
  }

  // No call comes before the one before it.
  ghost predicate Forward(start: real, times: seq<real>) {
    && (times != [] ==> start <= times[0])
    && forall i :: 0 <= i && i + 1 < |times| ==> times[i] <= times[i + 1]
  }

  lemma NextTime(start: real, times: seq<real>, i: nat)
    requires Forward(start, times) && i < |times|
    ensures (if i == 0 then start else times[i - 1]) <= times[i]
  {
    if i > 0 {
      assert times[i - 1] <= times[i - 1 + 1];
    }
  }

  lemma NoTurn(all: seq<nat>)
    ensures Turned(all, 0) == all && (all != [] ==> 0 == 0 % |all|)
  {
    if all != [] { Bits.DivModUnique(0, |all|, 0, 0); }
  }

  // The first in turn is dispatched, and is behind the queue from then on.
  lemma NextTurn(all: seq<nat>, i: nat, k: nat, q: seq<nat>, current: Option<nat>)
    requires Running(current) + q == Turned(all, k) && (all != [] ==> k == i % |all|)
    requires current.None? ==> q == []
    ensures var k' := if k + 1 >= |all| then 0 else k + 1;
      q + Running(current) == Turned(all, k') && (all != [] ==> k' == (i + 1) % |all|)
    ensures current == InTurn(all, i)
  {
    if all != [] {
      NextIndex(i, |all|);
      Rotate(all, k);
      assert Turned(all, k)[0] == all[k];
      assert q == Turned(all, k)[1..];
    }
  }

  lemma NextIndex(i: nat, n: nat)
    requires n > 0
    ensures i % n < n && (i + 1) % n == if i % n + 1 == n then 0 else i % n + 1
  {
    var q, r := i / n, i % n;
    Bits.DivModSpec(i, n);
    if r + 1 == n {
      assert n * (q + 1) == n * q + n;
      Bits.DivModUnique(i + 1, n, q + 1, 0);
    } else {
      Bits.DivModUnique(i + 1, n, q, r + 1);
    }
  }

  lemma Rotate(all: seq<nat>, k: nat)
    requires k < |all|
    ensures Turned(all, k) == [all[k]] + Turned(all, k)[1..]
    ensures Turned(all, k)[1..] + [all[k]] == Turned(all, if k + 1 == |all| then 0 else k + 1)
  {}

  lemma OfferOne(infos: Infos, x: nat)
    requires x in infos
    ensures Offer(RR, infos, [], x) == [x]
  {}

  lemma TwoArrivals(infos: Infos)
    requires 0 in infos && 1 in infos && infos[0].rr <= infos[1].rr
    ensures Offer(RR, infos, [0], 1) == [0, 1]
  {
    assert [0][1..] == [];
  }

  lemma FirstOfTwo(x: nat, q: seq<nat>, a: nat, b: nat)
    requires [x] + q == [a, b]
    ensures x == a && q == [b]
  {
    assert x == ([x] + q)[0] && q == ([x] + q)[1..];
  }

  // Two jobs arrive at 0.
  method TwoArrived() returns (s: Sched)
    ensures fresh(s) && s.Valid() && s.Ordered() && s.scheme == RR && s.queue == [0, 1] && s.trace.running == None
    ensures 0 in s.infos && s.infos[0].used == 0.0 && s.infos[0].arrival == 0.0
    ensures s.trace.first == map[] && s.trace.now == 0.0 && s.jobCount == 0 && s.totalResponse == 0.0
  {
    hide Ok, InOrder, StartsKept, NoneIdle, Compare, Precedes, Offer;
    s := new Sched(RR);
    s.NewJob(0, 0.0, 1, 1.0);
    OfferOne(s.infos, 0);
    s.NewJob(1, 0.0, 1, 5.0);
    TwoArrivals(s.infos);
  }

  // Both have the processor at 0.
  method TwoAtOnce() returns (s: Sched)
    ensures fresh(s) && s.Valid() && s.Ordered() && s.scheme == RR && s.queue == [0] && s.trace.running == Some(1)
    ensures 0 in s.infos && s.infos[0].used == 0.0 && s.infos[0].arrival == 0.0
    ensures 0 in s.trace.first && s.trace.first[0] == 0.0
    ensures s.trace.now == 0.0 && s.jobCount == 0 && s.totalResponse == 0.0
  {
    hide Ok, InOrder, StartsKept, NoneIdle, Restarts, Compare, Precedes, Offer;
    s := TwoArrived();
    var next := s.QuantumExpired(None, 0.0);
    FirstOfTwo(next.value, s.queue, 0, 1);
    next := s.QuantumExpired(Some(0), 0.0);
    FirstOfTwo(next.value, s.queue, 1, 0);
  }

  /**
   * Round robin over two jobs that arrive at 0: the first is dispatched at 0 and evicted at once, and its
   * response time is counted up to 5.0, when it is dispatched again.
   */
  method ResponseMissesFirstDispatch() returns (s: Sched)
    ensures fresh(s) && s.jobCount == 1 && s.totalResponse == 5.0
  {
    hide Ok, InOrder, StartsKept, NoneIdle, Restarts, Compare, Precedes, Offer;
    s := TwoAtOnce();
    var next := s.QuantumExpired(Some(1), 5.0);
    FirstOfTwo(next.value, s.queue, 0, 1);
    s.JobFinished(0, 6.0);
  }
}
