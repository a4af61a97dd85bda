/** When a sleeping thread runs again. */
module SleepTimes {
  import opened ReadyQueue
  import opened Dispatching
  import opened SchedulerRuns

  /** Neither terminates nor wakes nor puts to sleep the thread `x`: those flags of other threads
      and the suspended flag of every thread may change. */
  ghost predicate LeavesAlone(q: Queue, e: Event, x: int)
    requires q != []
  {
    match e
    case Sleep(_, _) => q[0].tid != x
    case Wake => q[0].tid != x
    case SetFlags(tid, flags) => tid == x ==> flags == THREAD_SUSPENDED
    case RemoveFlags(tid, flags) => tid == x ==> flags == THREAD_SUSPENDED
    case _ => true
  }

  ghost predicate RunLeavesAlone(q: Queue, es: seq<Event>, x: int)
    requires EnabledRun(q, es)
    decreases |es|
  {
    es == [] || (LeavesAlone(q, es[0], x) && RunLeavesAlone(After(q, es[0]), es[1..], x))
  }

  /** Thread `x` is queued, not terminated, has `delta` ticks to go and is asleep as `asleep` says. */
  ghost predicate SleepState(q: Queue, x: int, delta: nat, asleep: bool) {
    exists i :: 0 <= i < |q| && q[i].tid == x && SleepStateOf(q[i], delta, asleep)
  }

  predicate SleepStateOf(t: Thread, delta: nat, asleep: bool) {
    !t.Terminated() && t.sleepTimeDelta == delta && t.Sleeping() == asleep
  }

  function DeltaAfter(e: Event, delta: nat): nat {
    if e.Tick? && delta > 0 then delta - 1 else delta
  }

  function AsleepAfter(e: Event, delta: nat, asleep: bool): bool {
    asleep && !(e.Tick? && delta == 1)
  }

  lemma FlagFacts(s: bv32)
    ensures (s | THREAD_SUSPENDED) & THREAD_BLOCK_SLEEP == s & THREAD_BLOCK_SLEEP
    ensures (s | THREAD_SUSPENDED) & THREAD_TERMINATE == s & THREAD_TERMINATE
    ensures (s & !THREAD_SUSPENDED) & THREAD_BLOCK_SLEEP == s & THREAD_BLOCK_SLEEP
    ensures (s & !THREAD_SUSPENDED) & THREAD_TERMINATE == s & THREAD_TERMINATE
    ensures (s & !THREAD_BLOCK_SLEEP) & THREAD_BLOCK_SLEEP == 0
    ensures (s & !THREAD_BLOCK_SLEEP) & THREAD_TERMINATE == s & THREAD_TERMINATE
    ensures (s | THREAD_BLOCK_SLEEP) & THREAD_BLOCK_SLEEP != 0
    ensures (s | THREAD_BLOCK_SLEEP) & THREAD_TERMINATE == s & THREAD_TERMINATE
  {
  }

  lemma SuspensionKeepsSleep(t: Thread)
    ensures t.SetState(THREAD_SUSPENDED).Sleeping() == t.Sleeping()
    ensures t.SetState(THREAD_SUSPENDED).Terminated() == t.Terminated()
    ensures t.RemoveState(THREAD_SUSPENDED).Sleeping() == t.Sleeping()
    ensures t.RemoveState(THREAD_SUSPENDED).Terminated() == t.Terminated()
  {
    FlagFacts(t.state);
  }

  lemma KeepsSleepState(q: Queue, r: Queue, x: int, delta: nat, asleep: bool)
    requires SleepState(q, x, delta, asleep) && SameShape(q, r)
    requires forall i :: 0 <= i < |q| && q[i].tid == x ==>
      r[i] == q[i] || r[i] == q[i].SetState(THREAD_SUSPENDED) || r[i] == q[i].RemoveState(THREAD_SUSPENDED)
    ensures SleepState(r, x, delta, asleep)
  {
    var i :| 0 <= i < |q| && q[i].tid == x && SleepStateOf(q[i], delta, asleep);
    SuspensionKeepsSleep(q[i]);
    assert SleepStateOf(r[i], delta, asleep);
  }

  lemma DispatchKeepsSleepState(q: Queue, own: set<nat>, x: int, delta: nat, asleep: bool)
    requires HasRunnable(q) && SleepState(q, x, delta, asleep)
    ensures SleepState(Dispatch(q, own).queue, x, delta, asleep)
  {
    var i :| 0 <= i < |q| && q[i].tid == x && SleepStateOf(q[i], delta, asleep);
    DispatchKeepsThreads(q, own);
    var d := Dispatch(q, own);
    assert q[i] in multiset(q);
    assert q[i] !in d.reaped;
    assert q[i] in multiset(d.queue);
    var j :| 0 <= j < |d.queue| && d.queue[j] == q[i];
  }

  lemma TickedThread(t: Thread, delta: nat, asleep: bool, own: set<nat>)
    requires SleepStateOf(t, delta, asleep)
    ensures SleepStateOf(TickDown(t), DeltaAfter(Tick(own), delta), AsleepAfter(Tick(own), delta, asleep))
    ensures TickDown(t).tid == t.tid
  {
    FlagFacts(t.state);
  }

  lemma TickSleepState(q: Queue, x: int, delta: nat, asleep: bool, own: set<nat>)
    requires SleepState(q, x, delta, asleep)
    ensures SleepState(TickAll(q), x, DeltaAfter(Tick(own), delta), AsleepAfter(Tick(own), delta, asleep))
  {
    var i :| 0 <= i < |q| && q[i].tid == x && SleepStateOf(q[i], delta, asleep);
    hide SleepStateOf, TickDown;
    TickedThread(q[i], delta, asleep, own);
    assert TickAll(q)[i] == TickDown(q[i]);
  }

  lemma EventOnSleeper(q: Queue, e: Event, x: int, delta: nat, asleep: bool)
    requires DistinctTids(q) && Enabled(q, e) && LeavesAlone(q, e, x)
    requires SleepState(q, x, delta, asleep)
    ensures SleepState(After(q, e), x, DeltaAfter(e, delta), AsleepAfter(e, delta, asleep))
    ensures asleep && Dispatches(e) ==> After(q, e)[0].tid != x
  {
    if Dispatches(e) {
      var b := Before(q, e);
      KeepsSleepState(q, b, x, delta, asleep);
      DispatchKeepsSleepState(b, e.own, x, delta, asleep);
      var d := Dispatch(b, e.own).queue;
      BeforeShape(q, e);
      ShapeKeepsTids(q, b);
      DispatchKeepsDistinct(b, e.own);
      HeadIsAwake(d, x, delta, asleep);
      if e.Tick? {
        TickSleepState(d, x, delta, asleep, e.own);
      }
    } else {
      OtherEventOnSleeper(q, e, x, delta, asleep);
    }
  }

  lemma OtherEventOnSleeper(q: Queue, e: Event, x: int, delta: nat, asleep: bool)
    requires Enabled(q, e) && LeavesAlone(q, e, x) && !Dispatches(e)
    requires SleepState(q, x, delta, asleep)
    ensures SleepState(After(q, e), x, delta, asleep)
  {
    hide Enabled, Rank, LoopPass, HasRunnable, Asleep, TickDown, RemoveById, FreeTid;
    var i :| 0 <= i < |q| && q[i].tid == x && SleepStateOf(q[i], delta, asleep);
    match e
    case Append(t) =>
      assert (q + [t])[i] == q[i];
    case Fork(t) =>
      InsertElements(q, t);
      assert q[i] in multiset(InsertPrioritized(q, t));
    case SetFlags(tid, flags) =>
      SetByIdShape(q, tid, flags);
      KeepsSleepState(q, SetById(q, tid, flags), x, delta, asleep);
    case RemoveFlags(tid, flags) =>
      RemoveByIdShape(q, tid, flags);
      KeepsSleepState(q, RemoveById(q, tid, flags), x, delta, asleep);
    case UnsuspendAll(p) =>
      KeepsSleepState(q, Unsuspend(q, p), x, delta, asleep);
    case Wake =>
      KeepsSleepState(q, q[0 := Awake(q[0])], x, delta, asleep);
  }

  lemma HeadIsAwake(q: Queue, x: int, delta: nat, asleep: bool)
    requires DistinctTids(q) && q != [] && q[0].Runnable()
    requires SleepState(q, x, delta, asleep)
    ensures asleep ==> q[0].tid != x
  {
    var i :| 0 <= i < |q| && q[i].tid == x && SleepStateOf(q[i], delta, asleep);
    if i > 0 {
      assert q[0].tid != q[i].tid;
    }
  }

  /** The sleep state of thread `x` along a whole run, and who runs meanwhile. */
  lemma {:induction false} SleepAlongRun(q: Queue, es: seq<Event>, x: int, delta: nat, asleep: bool)
    requires DistinctTids(q) && EnabledRun(q, es) && RunLeavesAlone(q, es, x)
    requires SleepState(q, x, delta, asleep)
    ensures var n := Ticks(es);
            SleepState(RunEvents(q, es), x, if n < delta then delta - n else 0,
                       asleep && (delta == 0 || n < delta))
    decreases |es|
  {
    if es != [] {
      EventOnSleeper(q, es[0], x, delta, asleep);
      TidsStayDistinct(q, es[0]);
      SleepAlongRun(After(q, es[0]), es[1..], x, DeltaAfter(es[0], delta), AsleepAfter(es[0], delta, asleep));
    }
  }

  lemma {:induction false} RunPrefix(q: Queue, es: seq<Event>, n: nat, x: int)
    requires EnabledRun(q, es) && n <= |es| && RunLeavesAlone(q, es, x)
    ensures EnabledRun(q, es[..n]) && RunLeavesAlone(q, es[..n], x)
    ensures n < |es| ==>
      var m := RunEvents(q, es[..n]);
      && Enabled(m, es[n]) && LeavesAlone(m, es[n], x)
      && EnabledRun(q, es[..n + 1]) && RunEvents(q, es[..n + 1]) == After(m, es[n])
    decreases n
  {
    if n > 0 {
      RunPrefix(After(q, es[0]), es[1..], n - 1, x);
      assert es[..n][1..] == es[1..][..n - 1];
      assert n < |es| ==> es[..n + 1][1..] == es[1..][..n];
    } else if es != [] {
      assert es[..1][1..] == [];
    }
  }

  lemma {:induction false} DistinctAlongRun(q: Queue, es: seq<Event>)
    requires DistinctTids(q) && EnabledRun(q, es)
    ensures DistinctTids(RunEvents(q, es))
    decreases |es|
  {
    if es != [] {
      TidsStayDistinct(q, es[0]);
      DistinctAlongRun(After(q, es[0]), es[1..]);
    }
  }

  lemma SleepStarts(q: Queue, ms: nat, own: set<nat>)
    requires DistinctTids(q) && Enabled(q, Sleep(ms, own)) && !q[0].Terminated()
    ensures var r := After(q, Sleep(ms, own));
            && SleepState(r, q[0].tid, ms / TICK_MS, true)
            && DistinctTids(r) && r != [] && r[0].tid != q[0].tid
  {
    var x := q[0].tid;
    var b := Before(q, Sleep(ms, own));
    FlagFacts(q[0].state);
    assert b[0].tid == x && SleepStateOf(b[0], ms / TICK_MS, true);
    BeforeShape(q, Sleep(ms, own));
    ShapeKeepsTids(q, b);
    DispatchKeepsSleepState(b, own, x, ms / TICK_MS, true);
    DispatchKeepsDistinct(b, own);
    HeadIsAwake(Dispatch(b, own).queue, x, ms / TICK_MS, true);
  }

  lemma WholeTicks(ms: nat)
    ensures TICK_MS == 10
    ensures ms < TICK_MS <==> ms / TICK_MS == 0
  {
  }

  /** The thread that called thread_sleep(ms), in every run that leaves it alone afterwards: its
      delta is the ticks still to go, it is unblocked by exactly the (ms/10)-th tick, and for
      ms < 10 by no tick at all. */
  lemma SleepIsExact(q: Queue, ms: nat, own: set<nat>, es: seq<Event>)
    requires DistinctTids(q) && Enabled(q, Sleep(ms, own)) && !q[0].Terminated()
    requires EnabledRun(After(q, Sleep(ms, own)), es)
    requires RunLeavesAlone(After(q, Sleep(ms, own)), es, q[0].tid)
    ensures var r, n, k := RunEvents(After(q, Sleep(ms, own)), es), ms / TICK_MS, Ticks(es);
            SleepState(r, q[0].tid, if k < n then n - k else 0, ms < TICK_MS || k < n)
  {
    SleepStarts(q, ms, own);
    WholeTicks(ms);
    SleepAlongRun(After(q, Sleep(ms, own)), es, q[0].tid, ms / TICK_MS, true);
  }

  /** ... and until that tick no dispatch makes it the current thread. */
  lemma NeverCurrentBeforeItsTick(q: Queue, ms: nat, own: set<nat>, es: seq<Event>, n: nat)
    requires DistinctTids(q) && Enabled(q, Sleep(ms, own)) && !q[0].Terminated()
    requires EnabledRun(After(q, Sleep(ms, own)), es)
    requires RunLeavesAlone(After(q, Sleep(ms, own)), es, q[0].tid)
    requires n < |es| && Dispatches(es[n]) && (ms < TICK_MS || Ticks(es[..n]) < ms / TICK_MS)
    ensures After(q, Sleep(ms, own))[0].tid != q[0].tid
    ensures EnabledRun(After(q, Sleep(ms, own)), es[..n + 1])
    ensures var r := RunEvents(After(q, Sleep(ms, own)), es[..n + 1]); r != [] && r[0].tid != q[0].tid
  {
    SleepStarts(q, ms, own);
    var q1, x, k := After(q, Sleep(ms, own)), q[0].tid, Ticks(es[..n]);
    RunPrefix(q1, es, n, x);
    SleepIsExact(q, ms, own, es[..n]);
    DistinctAlongRun(q1, es[..n]);
    EventOnSleeper(RunEvents(q1, es[..n]), es[n], x, if k < ms / TICK_MS then ms / TICK_MS - k else 0, true);
  }
}
