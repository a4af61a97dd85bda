/** Runs of the scheduler: every kernel call that touches the ready queue is one event. */
module SchedulerRuns {
  import opened Powers
  import opened ReadyQueue
  import opened Starvation
  import opened Dispatching

  /** Timer interrupts a second, and so milliseconds a tick. */
  const PHASE: nat := 100
  const TICK_MS: nat := 1000 / PHASE

  // ---------------------------------------------------------------- effects on the queue

  function Asleep(t: Thread, ms: nat): Thread {
    t.SetState(THREAD_BLOCK_SLEEP).(sleepTimeDelta := ms / TICK_MS)
  }

  function Awake(t: Thread): Thread {
    t.RemoveState(THREAD_BLOCK_SLEEP).(sleepTimeDelta := 0)
  }

  function TickDown(t: Thread): Thread {
    if t.sleepTimeDelta == 0 then t
    else if t.sleepTimeDelta == 1 then Awake(t)
    else t.(sleepTimeDelta := t.sleepTimeDelta - 1)
  }

  function TickAll(q: Queue): Queue {
    seq(|q|, i requires 0 <= i < |q| => TickDown(q[i]))
  }

  function SetById(q: Queue, tid: int, flags: bv32): (r: Queue)
    ensures |r| == |q|
  {
    if q == [] then [] else if q[0].tid == tid then [q[0].SetState(flags)] + q[1..]
    else [q[0]] + SetById(q[1..], tid, flags)
  }

  function RemoveById(q: Queue, tid: int, flags: bv32): (r: Queue)
    ensures |r| == |q|
  {
    if q == [] then [] else if q[0].tid == tid then [q[0].RemoveState(flags)] + q[1..]
    else [q[0]] + RemoveById(q[1..], tid, flags)
  }

  function UnsuspendOf(t: Thread, parents: set<nat>): Thread {
    if t.parent in parents then t.RemoveState(THREAD_SUSPENDED) else t
  }

  function Unsuspend(q: Queue, parents: set<nat>): Queue {
    seq(|q|, i requires 0 <= i < |q| => UnsuspendOf(q[i], parents))
  }

  /** One more than the largest thread id in use. */
  function FreeTid(q: Queue, from: int := 1): (id: int)
    ensures id >= from
    ensures forall i :: 0 <= i < |q| ==> q[i].tid < id
    decreases |q|
  {
    if q == [] then from
    else
      var id := FreeTid(q[1..], if q[0].tid >= from then q[0].tid + 1 else from);
      assert forall i :: 1 <= i < |q| ==> q[i] == q[1..][i - 1];
      id
  }

  /** Exactly so: it is 1, or one more than an id in use. */
  lemma {:induction false} FreeTidIsNext(q: Queue, from: int)
    ensures FreeTid(q, from) == from || exists t :: t in q && t.tid + 1 == FreeTid(q, from)
    decreases |q|
  {
    if q != [] {
      var next := if q[0].tid >= from then q[0].tid + 1 else from;
      FreeTidIsNext(q[1..], next);
      if FreeTid(q, from) == q[0].tid + 1 {
        assert q[0] in q;
      } else if FreeTid(q, from) != from {
        var t :| t in q[1..] && t.tid + 1 == FreeTid(q, from);
        assert t in q;
      }
    }
  }

  // ---------------------------------------------------------------- events

  /** `own` is the set of processes whose page directory is loaded at the dispatch. */
  datatype Event =
    | Yield(own: set<nat>)               // schedule
    | Tick(own: set<nat>)                // scheduler_tick
    | Sleep(ms: nat, own: set<nat>)      // thread_sleep by the current thread
    | Suspend(own: set<nat>)             // thread_suspend by the current thread
    | Wake                               // thread_wake by the current thread
    | Append(t: Thread)                  // queue_insert
    | Fork(t: Thread)                    // queue_insert_prioritized
    | SetFlags(tid: int, flags: bv32)    // thread_set_state_by_id
    | RemoveFlags(tid: int, flags: bv32) // thread_remove_state_by_id
    | UnsuspendAll(parents: set<nat>)    // unsuspend_suspended_threads, for the blocks with an id

  predicate Dispatches(e: Event) { e.Yield? || e.Tick? || e.Sleep? || e.Suspend? }

  /** The queue when the dispatch of the event, if any, begins. */
  function Before(q: Queue, e: Event): Queue
    requires q != []
  {
    match e
    case Sleep(ms, _) => q[0 := Asleep(q[0], ms)]
    case Suspend(_) => q[0 := q[0].SetState(THREAD_SUSPENDED)]
    case _ => q
  }

  /** The event can happen: a thread is current, new threads get the free id, and a dispatch ends. */
  ghost predicate Enabled(q: Queue, e: Event) {
    && q != []
    && (Dispatches(e) ==> HasRunnable(Before(q, e)))
    && (e.Append? || e.Fork? ==> e.t.tid == FreeTid(q))
  }

  function After(q: Queue, e: Event): Queue
    requires Enabled(q, e)
  {
    match e
    case Yield(own) => Dispatch(q, own).queue
    case Tick(own) => TickAll(Dispatch(q, own).queue)
    case Sleep(_, own) => Dispatch(Before(q, e), own).queue
    case Suspend(own) => Dispatch(Before(q, e), own).queue
    case Wake => q[0 := Awake(q[0])]
    case Append(t) => q + [t]
    case Fork(t) => InsertPrioritized(q, t)
    case SetFlags(tid, flags) => SetById(q, tid, flags)
    case RemoveFlags(tid, flags) => RemoveById(q, tid, flags)
    case UnsuspendAll(parents) => Unsuspend(q, parents)
  }

  ghost predicate EnabledRun(q: Queue, es: seq<Event>)
    decreases |es|
  {
    es == [] || (Enabled(q, es[0]) && EnabledRun(After(q, es[0]), es[1..]))
  }

  ghost function RunEvents(q: Queue, es: seq<Event>): Queue
    requires EnabledRun(q, es)
    decreases |es|
  {
    if es == [] then q else RunEvents(After(q, es[0]), es[1..])
  }

  function Ticks(es: seq<Event>): nat {
    if es == [] then 0 else (if es[0].Tick? then 1 else 0) + Ticks(es[1..])
  }

  // ---------------------------------------------------------------- thread ids stay distinct

  lemma OccursTwice(r: Queue, i: nat, j: nat)
    requires i < j < |r| && r[i] == r[j]
    ensures multiset(r)[r[i]] >= 2
  {
    assert r == r[..j] + r[j..];
    assert r[i] in r[..j] && r[j] in r[j..];
  }

  lemma OccursOnce(q: Queue, a: nat)
    requires DistinctTids(q) && a < |q|
    ensures multiset(q)[q[a]] == 1
  {
    assert q == q[..a] + [q[a]] + q[a + 1..];
    assert q[a] !in q[..a] && q[a] !in q[a + 1..];
  }

  lemma DistinctRearranged(q: Queue, r: Queue)
    requires DistinctTids(q) && multiset(r) <= multiset(q)
    ensures DistinctTids(r)
  {
    forall i, j | 0 <= i < j < |r| ensures r[i].tid != r[j].tid {
      assert r[i] in multiset(r) && r[j] in multiset(r);
      assert r[i] in multiset(q) && r[j] in multiset(q);
      var a :| 0 <= a < |q| && q[a] == r[i];
      OccursOnce(q, a);
      if r[i] == r[j] {
        OccursTwice(r, i, j);
      }
    }
  }

  /** The same threads in the same order, up to state and sleep time. */
  ghost predicate SameShape(q: Queue, r: Queue) {
    |q| == |r| && forall i :: 0 <= i < |q| ==>
      r[i].tid == q[i].tid && r[i].priority == q[i].priority && r[i].parent == q[i].parent
      && r[i].kernelESP == q[i].kernelESP
  }

  lemma {:induction false} SetByIdShape(q: Queue, tid: int, flags: bv32)
    ensures |SetById(q, tid, flags)| == |q| && SameShape(q, SetById(q, tid, flags))
    ensures forall i :: 0 <= i < |q| && q[i].tid != tid ==> SetById(q, tid, flags)[i] == q[i]
    ensures forall i :: 0 <= i < |q| ==> SetById(q, tid, flags)[i] in {q[i], q[i].SetState(flags)}
  {
    if q != [] && q[0].tid != tid {
      SetByIdShape(q[1..], tid, flags);
    }
  }

  lemma {:induction false} RemoveByIdShape(q: Queue, tid: int, flags: bv32)
    ensures |RemoveById(q, tid, flags)| == |q| && SameShape(q, RemoveById(q, tid, flags))
    ensures forall i :: 0 <= i < |q| && q[i].tid != tid ==> RemoveById(q, tid, flags)[i] == q[i]
    ensures forall i :: 0 <= i < |q| ==> RemoveById(q, tid, flags)[i] in {q[i], q[i].RemoveState(flags)}
  {
    if q != [] && q[0].tid != tid {
      RemoveByIdShape(q[1..], tid, flags);
    }
  }

  lemma NewTidDistinct(q: Queue, t: Thread)
    requires DistinctTids(q) && t.tid == FreeTid(q)
    ensures DistinctTids(q + [t])
    ensures DistinctTids(InsertPrioritized(q, t))
  {
    InsertElements(q, t);
    assert multiset(q + [t]) == multiset(q) + multiset{t};
    DistinctRearranged(q + [t], InsertPrioritized(q, t));
  }

  lemma BeforeShape(q: Queue, e: Event)
    requires q != []
    ensures SameShape(q, Before(q, e))
  {
  }

  lemma ShapeKeepsTids(q: Queue, r: Queue)
    requires DistinctTids(q) && SameShape(q, r)
    ensures DistinctTids(r)
  {
  }

  lemma DispatchKeepsDistinct(q: Queue, own: set<nat>)
    requires DistinctTids(q) && HasRunnable(q)
    ensures DistinctTids(Dispatch(q, own).queue)
  {
    DispatchKeepsThreads(q, own);
    DistinctRearranged(q, Dispatch(q, own).queue);
  }

  lemma TidsStayDistinct(q: Queue, e: Event)
    requires DistinctTids(q) && Enabled(q, e)
    ensures DistinctTids(After(q, e))
  {
    if Dispatches(e) {
      BeforeShape(q, e);
      ShapeKeepsTids(q, Before(q, e));
      DispatchKeepsDistinct(Before(q, e), e.own);
      if e.Tick? {
        var d := Dispatch(q, e.own).queue;
        ShapeKeepsTids(d, TickAll(d));
      }
    } else {
      match e
      case Append(t) => NewTidDistinct(q, t);
      case Fork(t) => NewTidDistinct(q, t);
      case SetFlags(tid, flags) => SetByIdShape(q, tid, flags);
      case RemoveFlags(tid, flags) => RemoveByIdShape(q, tid, flags);
      case UnsuspendAll(p) => ShapeKeepsTids(q, Unsuspend(q, p));
      case Wake => ShapeKeepsTids(q, q[0 := Awake(q[0])]);
    }
  }
}
