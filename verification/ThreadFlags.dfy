/** What the events of a run do to the entry of one thread, and how long a suspended thread stays suspended. */
module ThreadFlags {
  import opened Words
  import opened ReadyQueue
  import opened Dispatching
  import opened SchedulerRuns

  // ---------------------------------------------------------------- flags

  /** A thread is runnable when the flags 2 (asleep), 4 (terminated) and 8 (suspended) are all clear. */
  lemma RunnableBits(t: Thread)
    ensures t.Runnable() <==> t.state & 14 == 0
    ensures t.Sleeping() <==> t.state & 2 != 0
    ensures t.Terminated() <==> t.state & 4 != 0
    ensures t.Suspended() <==> t.state & 8 != 0
  {
    FourteenBits(t.state);
  }

  lemma FourteenBits(s: bv32)
    ensures s & 14 == 0 <==> s & 2 == 0 && s & 4 == 0 && s & 8 == 0
  {
  }

  predicate Has(s: bv32, f: bv32) { s & f == f }

  predicate Clear(s: bv32, f: bv32) { s & f == 0 }

  /** The flags `f` are the same in both states. */
  predicate Same(s: bv32, u: bv32, f: bv32) { u & f == s & f }

  predicate IsSet(s: bv32, f: bv32, u: bv32) { u == s | f }

  predicate IsCleared(s: bv32, f: bv32, u: bv32) { u == s & !f }

  lemma RunnableIsClear(t: Thread)
    ensures t.Runnable() ==> Clear(t.state, 2)
    ensures !t.Terminated() <==> Clear(t.state, 4)
  {
  }

  lemma ClearFlags()
    ensures Clear(2, 4) && Clear(2, 8) && Clear(8, 4)
  {
  }

  lemma StateOfCalls(t: Thread, f: bv32)
    ensures IsSet(t.state, f, t.SetState(f).state) && IsCleared(t.state, f, t.RemoveState(f).state)
  {
  }

  lemma RestOfCalls(t: Thread, f: bv32, u: Thread)
    requires u == t.SetState(f) || u == t.RemoveState(f)
    ensures u == t.(state := u.state)
  {
  }

  lemma FlagsSet(s: bv32, f: bv32, g: bv32, u: bv32)
    requires Clear(f, g) && IsSet(s, f, u)
    ensures Has(u, f) && Same(s, u, g)
  {
    SameMask(s, f);
    OtherMask(s, f, g);
  }

  lemma FlagsCleared(s: bv32, f: bv32, g: bv32, u: bv32)
    requires Clear(f, g) && IsCleared(s, f, u)
    ensures Clear(u, f) && Same(s, u, g)
  {
    SameMask(s, f);
    OtherMask(s, f, g);
  }

  /** thread_set_state and thread_remove_state: the flags are set or cleared, every other flag and everything
      else stays. */
  lemma FlagCalls(t: Thread, f: bv32, g: bv32)
    requires Clear(f, g)
    ensures var u := t.SetState(f); Has(u.state, f) && Same(t.state, u.state, g) && u == t.(state := u.state)
    ensures var u := t.RemoveState(f); Clear(u.state, f) && Same(t.state, u.state, g) && u == t.(state := u.state)
  {
    hide Same, Clear, Has, IsSet, IsCleared, Thread.SetState, Thread.RemoveState;
    StateOfCalls(t, f);
    RestOfCalls(t, f, t.SetState(f));
    RestOfCalls(t, f, t.RemoveState(f));
    FlagsSet(t.state, f, g, t.SetState(f).state);
    FlagsCleared(t.state, f, g, t.RemoveState(f).state);
  }

  // ---------------------------------------------------------------- the events by entry

  /** A tick touches no entry whose sleep time is 0. Of the others it takes one, clears the block flag
      when none is left, and keeps every other flag and everything else. */
  lemma TickOfEntry(q: Queue, i: nat, f: bv32)
    requires i < |q| && Clear(2, f)
    ensures |TickAll(q)| == |q|
    ensures var (t, u) := (q[i], TickAll(q)[i]);
      && (t.sleepTimeDelta == 0 ==> u == t)
      && (t.sleepTimeDelta > 0 ==> u.sleepTimeDelta == t.sleepTimeDelta - 1)
      && (if t.sleepTimeDelta == 1 then Clear(u.state, 2) else u.state == t.state)
      && Same(t.state, u.state, f)
      && u == t.(state := u.state, sleepTimeDelta := u.sleepTimeDelta)
  {
    hide Same, Clear, Has, Thread.RemoveState;
    FlagCalls(q[i], 2, f);
    Unchanged(q[i].state, f);
  }

  lemma Unchanged(s: bv32, f: bv32)
    ensures Same(s, s, f)
  {
  }

  /** The calls by thread id reach exactly the entry with that id. */
  lemma {:induction false} ByIdAt(q: Queue, tid: int, flags: bv32, i: nat)
    requires DistinctTids(q) && i < |q|
    ensures SetById(q, tid, flags)[i] == if q[i].tid == tid then q[i].SetState(flags) else q[i]
    ensures RemoveById(q, tid, flags)[i] == if q[i].tid == tid then q[i].RemoveState(flags) else q[i]
  {
    hide Thread.SetState, Thread.RemoveState;
    if i > 0 {
      ByIdAt(q[1..], tid, flags, i - 1);
    }
  }

  /** unsuspend_suspended_threads clears the flag 8 of every thread of the process, and does nothing else. */
  lemma UnsuspendAt(q: Queue, parents: set<nat>, i: nat, f: bv32)
    requires i < |q| && Clear(8, f)
    ensures |Unsuspend(q, parents)| == |q|
    ensures var (t, u) := (q[i], Unsuspend(q, parents)[i]);
      if t.parent !in parents then u == t
      else u == t.(state := u.state) && Same(t.state, u.state, f) && Clear(u.state, 8)
  {
    hide Same, Clear, Has, Thread.RemoveState;
    FlagCalls(q[i], 8, f);
  }

  /** thread_sleep and thread_wake by the current thread. */
  lemma SleepAndWakeAt(t: Thread, ms: nat, f: bv32)
    requires Clear(2, f)
    ensures var u := Asleep(t, ms);
      u == t.(state := u.state, sleepTimeDelta := ms / 10) && Has(u.state, 2) && Same(t.state, u.state, f)
    ensures var u := Awake(t);
      u == t.(state := u.state, sleepTimeDelta := 0) && Clear(u.state, 2) && Same(t.state, u.state, f)
  {
    hide Same, Clear, Has, Thread.RemoveState, Thread.SetState;
    FlagCalls(t, 2, f);
  }

  // ---------------------------------------------------------------- an entry along a run

  /** The event is not a call by the thread or for its id or process. */
  predicate PassesBy(q: Queue, e: Event, t: Thread)
    requires q != []
  {
    match e
    case Sleep(_, _) => q[0].tid != t.tid
    case Suspend(_) => q[0].tid != t.tid
    case Wake => q[0].tid != t.tid
    case SetFlags(tid, _) => tid != t.tid
    case RemoveFlags(tid, _) => tid != t.tid
    case UnsuspendAll(parents) => t.parent !in parents
    case _ => true
  }

  ghost predicate RunPassesBy(q: Queue, es: seq<Event>, t: Thread)
    requires EnabledRun(q, es)
    decreases |es|
  {
    es == [] || (PassesBy(q, es[0], t) && RunPassesBy(After(q, es[0]), es[1..], t))
  }

  /** The entry after `n` ticks. */
  function TickedBy(t: Thread, n: nat): Thread {
    if t.sleepTimeDelta == 0 then t
    else if n < t.sleepTimeDelta then t.(sleepTimeDelta := t.sleepTimeDelta - n)
    else t.RemoveState(2).(sleepTimeDelta := 0)
  }

  lemma DispatchKeepsEntry(q: Queue, own: set<nat>, t: Thread)
    requires HasRunnable(q) && t in q && !t.Terminated()
    ensures t in Dispatch(q, own).queue
  {
    DispatchKeepsThreads(q, own);
    var d := Dispatch(q, own);
    assert t in multiset(q) && t !in d.reaped;
    assert t in multiset(d.queue);
  }

  lemma InsertedKeepsEntry(q: Queue, u: Thread, t: Thread)
    requires t in q
    ensures t in InsertPrioritized(q, u) && t in q + [u]
  {
    InsertElements(q, u);
    assert t in multiset(q) && t in multiset(InsertPrioritized(q, u));
  }

  lemma EventOnEntry(q: Queue, e: Event, t: Thread)
    requires DistinctTids(q) && Enabled(q, e) && PassesBy(q, e, t) && t in q && !t.Terminated()
    ensures (if e.Tick? then TickDown(t) else t) in After(q, e)
  {
    hide TickDown, Asleep, Awake, UnsuspendOf, HasRunnable, FreeTid, Rank, LoopPass;
    var i :| 0 <= i < |q| && q[i] == t;
    match e
    case Yield(own) => DispatchKeepsEntry(q, own, t);
    case Tick(own) =>
      DispatchKeepsEntry(q, own, t);
      var d := Dispatch(q, own).queue;
      var j :| 0 <= j < |d| && d[j] == t;
      assert TickAll(d)[j] == TickDown(t);
    case Sleep(_, own) =>
      assert Before(q, e)[i] == t;
      DispatchKeepsEntry(Before(q, e), own, t);
    case Suspend(own) =>
      assert Before(q, e)[i] == t;
      DispatchKeepsEntry(Before(q, e), own, t);
    case Wake => assert After(q, e)[i] == t;
    case Append(u) => InsertedKeepsEntry(q, u, t);
    case Fork(u) => InsertedKeepsEntry(q, u, t);
    case SetFlags(tid, flags) => ByIdAt(q, tid, flags, i);
    case RemoveFlags(tid, flags) => ByIdAt(q, tid, flags, i);
    case UnsuspendAll(parents) => NotUnsuspended(q, parents, i);
  }

  lemma NotUnsuspended(q: Queue, parents: set<nat>, i: nat)
    requires i < |q| && q[i].parent !in parents
    ensures Unsuspend(q, parents)[i] == q[i]
  {
  }

  lemma TickedOnce(t: Thread, n: nat)
    requires !t.Terminated()
    ensures TickedBy(TickDown(t), n) == TickedBy(t, n + 1) && !TickDown(t).Terminated()
    ensures TickDown(t).tid == t.tid && TickDown(t).parent == t.parent
  {
    hide Same, Clear, Has, Thread.RemoveState;
    ClearFlags();
    FlagCalls(t, 2, 4);
    TerminatedFlag(t, TickDown(t));
    if t.sleepTimeDelta > 0 {
      DeltaAside(t, t.sleepTimeDelta - 1);
    }
  }

  /** Clearing the flag does not look at the sleep time. */
  lemma DeltaAside(t: Thread, d: int)
    requires d >= 0
    ensures t.(sleepTimeDelta := d).RemoveState(2).(sleepTimeDelta := 0) == t.RemoveState(2).(sleepTimeDelta := 0)
  {
    hide IsCleared, Thread.SetState, Thread.RemoveState;
    var v := t.(sleepTimeDelta := d);
    StateOfCalls(t, 2);
    StateOfCalls(v, 2);
    OnlyCleared(t.state, 2, t.RemoveState(2).state, v.RemoveState(2).state);
    RestOfCalls(t, 2, t.RemoveState(2));
    RestOfCalls(v, 2, v.RemoveState(2));
  }

  lemma OnlyCleared(s: bv32, f: bv32, u: bv32, v: bv32)
    requires IsCleared(s, f, u) && IsCleared(s, f, v)
    ensures u == v
  {
  }

  lemma TerminatedFlag(t: Thread, u: Thread)
    ensures Same(t.state, u.state, 4) ==> u.Terminated() == t.Terminated()
  {
  }

  lemma {:induction false} SamePassesBy(q: Queue, es: seq<Event>, t: Thread, u: Thread)
    requires EnabledRun(q, es) && RunPassesBy(q, es, t) && u.tid == t.tid && u.parent == t.parent
    ensures RunPassesBy(q, es, u)
    decreases |es|
  {
    if es != [] {
      SamePassesBy(After(q, es[0]), es[1..], t, u);
    }
  }

  /** Over every run that passes it by, the whole entry of a thread is its entry at the start, ticked. */
  lemma {:induction false} EntryAlongRun(q: Queue, es: seq<Event>, t: Thread)
    requires DistinctTids(q) && EnabledRun(q, es) && RunPassesBy(q, es, t) && t in q && !t.Terminated()
    ensures TickedBy(t, Ticks(es)) in RunEvents(q, es)
    decreases |es|
  {
    hide TickDown, TickedBy, Enabled, After;
    if es == [] {
      NoTicks(t);
    } else {
      EventOnEntry(q, es[0], t);
      TidsStayDistinct(q, es[0]);
      TickedOnce(t, Ticks(es[1..]));
      var u := if es[0].Tick? then TickDown(t) else t;
      SamePassesBy(After(q, es[0]), es[1..], t, u);
      EntryAlongRun(After(q, es[0]), es[1..], u);
    }
  }

  lemma NoTicks(t: Thread)
    ensures TickedBy(t, 0) == t
  {
  }

  /** A thread that sleeps for ten milliseconds or more is, after that many ticks of a run that passes it by,
      in every field as it was when it called thread_sleep. */
  lemma SleepIsUndone(q: Queue, ms: nat, own: set<nat>, es: seq<Event>)
    requires DistinctTids(q) && Enabled(q, Sleep(ms, own)) && q[0].Runnable() && q[0].sleepTimeDelta == 0 && ms >= 10
    requires EnabledRun(After(q, Sleep(ms, own)), es) && RunPassesBy(After(q, Sleep(ms, own)), es, q[0])
    requires Ticks(es) >= ms / 10
    ensures q[0] in RunEvents(After(q, Sleep(ms, own)), es)
  {
    var b, t := Before(q, Sleep(ms, own)), Asleep(q[0], ms);
    assert t == b[0] && HasRunnable(b);
    hide HasRunnable, Rank, FreeTid, Asleep, TickedBy, TickDown, Thread.Runnable, Thread.Terminated;
    AsleepEntry(q[0], ms, Ticks(es));
    DispatchKeepsEntry(b, own, t);
    TidsStayDistinct(q, Sleep(ms, own));
    SamePassesBy(After(q, Sleep(ms, own)), es, q[0], t);
    EntryAlongRun(After(q, Sleep(ms, own)), es, t);
  }

  lemma AsleepEntry(t: Thread, ms: nat, n: nat)
    requires t.Runnable() && t.sleepTimeDelta == 0 && ms >= 10 && n >= ms / 10
    ensures var u := Asleep(t, ms); !u.Terminated() && u.tid == t.tid && u.parent == t.parent && TickedBy(u, n) == t
  {
    hide Same, Clear, Has, Thread.SetState, Thread.RemoveState;
    ClearFlags();
    FlagCalls(t, 2, 4);
    TerminatedFlag(t, Asleep(t, ms));
    RunnableIsClear(t);
    SetThenCleared(t, 2, Asleep(t, ms), TickedBy(Asleep(t, ms), n));
  }

  lemma SetThenCleared(t: Thread, f: bv32, u: Thread, v: Thread)
    requires Clear(t.state, f) && t.sleepTimeDelta == 0
    requires u == t.SetState(f).(sleepTimeDelta := u.sleepTimeDelta) && v == u.RemoveState(f).(sleepTimeDelta := 0)
    ensures v == t
  {
    hide Clear, IsSet, IsCleared, Thread.SetState, Thread.RemoveState;
    StateOfCalls(t, f);
    StateOfCalls(u, f);
    RestOfCalls(t, f, t.SetState(f));
    RestOfCalls(u, f, u.RemoveState(f));
    SetThenClear(t.state, f, u.state, v.state);
  }

  lemma SetThenClear(s: bv32, f: bv32, u: bv32, v: bv32)
    requires Clear(s, f) && IsSet(s, f, u) && IsCleared(u, f, v)
    ensures v == s
  {
  }

  // ---------------------------------------------------------------- suspension

  /** Thread `x` of process `p` is queued, suspended and not terminated. */
  ghost predicate IsSuspended(q: Queue, x: int, p: nat) {
    exists i :: 0 <= i < |q| && q[i].tid == x && SuspendedEntry(q[i], p)
  }

  predicate SuspendedEntry(t: Thread, p: nat) {
    t.parent == p && SuspendedState(t.state)
  }

  predicate SuspendedState(s: bv32) { s & 8 != 0 && s & 4 == 0 }

  /** The event neither unsuspends thread `x` of process `p` nor terminates it. */
  predicate LeavesSuspended(e: Event, x: int, p: nat) {
    match e
    case SetFlags(tid, flags) => tid == x ==> Clear(flags, 4)
    case RemoveFlags(tid, flags) => tid == x ==> Clear(flags, 8)
    case UnsuspendAll(parents) => p !in parents
    case _ => true
  }

  lemma SetStaysSuspended(s: bv32, f: bv32, u: bv32)
    requires SuspendedState(s) && IsSet(s, f, u) && Clear(f, 4)
    ensures SuspendedState(u)
  {
  }

  lemma ClearedStaysSuspended(s: bv32, f: bv32, u: bv32)
    requires SuspendedState(s) && IsCleared(s, f, u) && Clear(f, 8)
    ensures SuspendedState(u)
  {
  }

  lemma FlaggedStaysSuspended(t: Thread, flags: bv32, p: nat)
    requires SuspendedEntry(t, p) && Clear(flags, 4)
    ensures SuspendedEntry(t.SetState(flags), p)
  {
    hide SuspendedState, Clear, IsSet, IsCleared;
    StateOfCalls(t, flags);
    SetStaysSuspended(t.state, flags, t.SetState(flags).state);
  }

  lemma UnflaggedStaysSuspended(t: Thread, flags: bv32, p: nat)
    requires SuspendedEntry(t, p) && Clear(flags, 8)
    ensures SuspendedEntry(t.RemoveState(flags), p)
  {
    hide SuspendedState, Clear, IsSet, IsCleared;
    StateOfCalls(t, flags);
    ClearedStaysSuspended(t.state, flags, t.RemoveState(flags).state);
  }

  lemma MovedEntryStaysSuspended(t: Thread, ms: nat, p: nat)
    requires SuspendedEntry(t, p)
    ensures SuspendedEntry(Asleep(t, ms), p) && SuspendedEntry(Awake(t), p) && SuspendedEntry(TickDown(t), p)
    ensures SuspendedEntry(t.SetState(THREAD_SUSPENDED), p)
    ensures TickDown(t).tid == t.tid
  {
    hide SuspendedState, Clear, Thread.SetState, Thread.RemoveState;
    ClearFlags();
    FlaggedStaysSuspended(t, 2, p);
    FlaggedStaysSuspended(t, 8, p);
    UnflaggedStaysSuspended(t, 2, p);
    RestOfCalls(t, 2, t.RemoveState(2));
  }

  lemma DispatchKeepsSuspended(q: Queue, own: set<nat>, x: int, p: nat)
    requires DistinctTids(q) && HasRunnable(q) && IsSuspended(q, x, p)
    ensures var d := Dispatch(q, own).queue; IsSuspended(d, x, p) && d[0].tid != x && DistinctTids(d)
  {
    var i :| 0 <= i < |q| && q[i].tid == x && SuspendedEntry(q[i], p);
    DispatchKeepsEntry(q, own, q[i]);
    DispatchKeepsDistinct(q, own);
    var d := Dispatch(q, own).queue;
    var j :| 0 <= j < |d| && d[j] == q[i];
    assert d[0].Runnable() && d[j].Suspended();
    assert j > 0 ==> d[0].tid != d[j].tid;
  }

  lemma BeforeKeepsSuspended(q: Queue, e: Event, x: int, p: nat)
    requires q != [] && IsSuspended(q, x, p)
    ensures IsSuspended(Before(q, e), x, p)
  {
    var i :| 0 <= i < |q| && q[i].tid == x && SuspendedEntry(q[i], p);
    MovedEntryStaysSuspended(q[i], if e.Sleep? then e.ms else 0, p);
    assert SuspendedEntry(Before(q, e)[i], p);
  }

  lemma TickKeepsSuspended(q: Queue, x: int, p: nat)
    requires IsSuspended(q, x, p)
    ensures IsSuspended(TickAll(q), x, p)
  {
    var i :| 0 <= i < |q| && q[i].tid == x && SuspendedEntry(q[i], p);
    MovedEntryStaysSuspended(q[i], 0, p);
    assert TickAll(q)[i] == TickDown(q[i]);
  }

  lemma EventKeepsSuspended(q: Queue, e: Event, x: int, p: nat)
    requires DistinctTids(q) && Enabled(q, e) && LeavesSuspended(e, x, p) && IsSuspended(q, x, p)
    ensures IsSuspended(After(q, e), x, p)
    ensures Dispatches(e) ==> After(q, e) != [] && After(q, e)[0].tid != x
  {
    hide SuspendedEntry, TickDown, Asleep, Awake, FreeTid, Rank, LoopPass, HasRunnable;
    if Dispatches(e) {
      BeforeKeepsSuspended(q, e, x, p);
      BeforeShape(q, e);
      ShapeKeepsTids(q, Before(q, e));
      DispatchKeepsSuspended(Before(q, e), e.own, x, p);
      if e.Tick? {
        var d := Dispatch(q, e.own).queue;
        TickKeepsSuspended(d, x, p);
        TickOfEntry(d, 0, 0);
      }
    } else {
      OtherEventKeepsSuspended(q, e, x, p);
    }
  }

  lemma OtherEventKeepsSuspended(q: Queue, e: Event, x: int, p: nat)
    requires DistinctTids(q) && Enabled(q, e) && LeavesSuspended(e, x, p) && IsSuspended(q, x, p) && !Dispatches(e)
    ensures IsSuspended(After(q, e), x, p)
  {
    var i :| 0 <= i < |q| && q[i].tid == x && SuspendedEntry(q[i], p);
    var t := q[i];
    assert t.parent == p;
    hide SuspendedEntry, TickDown, Asleep, Awake, FreeTid, Rank, LoopPass, HasRunnable, Enabled;
    match e
    case Wake =>
      MovedEntryStaysSuspended(t, 0, p);
      WokenTid(t);
      assert After(q, e)[i] in {t, Awake(t)};
    case Append(u) => assert After(q, e)[i] == t;
    case Fork(u) =>
      InsertedKeepsEntry(q, u, t);
      var j :| 0 <= j < |After(q, e)| && After(q, e)[j] == t;
    case SetFlags(tid, flags) =>
      ByIdAt(q, tid, flags, i);
      if tid == x { FlaggedStaysSuspended(t, flags, p); }
    case RemoveFlags(tid, flags) =>
      ByIdAt(q, tid, flags, i);
      if tid == x { UnflaggedStaysSuspended(t, flags, p); }
    case UnsuspendAll(parents) => NotUnsuspended(q, parents, i);
  }

  lemma WokenTid(t: Thread)
    ensures Awake(t).tid == t.tid
  {
  }

  predicate RunLeavesSuspended(es: seq<Event>, x: int, p: nat) {
    forall i :: 0 <= i < |es| ==> LeavesSuspended(es[i], x, p)
  }

  /** No dispatch of the run makes thread `x` the current one. */
  ghost predicate NeverCurrent(q: Queue, es: seq<Event>, x: int)
    requires EnabledRun(q, es)
    decreases |es|
  {
    es == [] ||
    ((Dispatches(es[0]) ==> After(q, es[0]) != [] && After(q, es[0])[0].tid != x)
     && NeverCurrent(After(q, es[0]), es[1..], x))
  }

  /** Over every run without an event that ends it a suspended thread stays suspended, and no dispatch
      makes it the current one. */
  lemma {:induction false} SuspendedAlongRun(q: Queue, es: seq<Event>, x: int, p: nat)
    requires DistinctTids(q) && EnabledRun(q, es) && RunLeavesSuspended(es, x, p) && IsSuspended(q, x, p)
    ensures IsSuspended(RunEvents(q, es), x, p) && NeverCurrent(q, es, x)
    decreases |es|
  {
    hide IsSuspended, Enabled, After, LeavesSuspended;
    if es != [] {
      EventKeepsSuspended(q, es[0], x, p);
      TidsStayDistinct(q, es[0]);
      SuspendedAlongRun(After(q, es[0]), es[1..], x, p);
    }
  }

  /** thread_suspend begins it: another thread is the current one then. */
  lemma SuspendStarts(q: Queue, own: set<nat>)
    requires DistinctTids(q) && Enabled(q, Suspend(own)) && !q[0].Terminated()
    ensures var r := After(q, Suspend(own));
      IsSuspended(r, q[0].tid, q[0].parent) && r[0].tid != q[0].tid && DistinctTids(r)
  {
    var e, x, p := Suspend(own), q[0].tid, q[0].parent;
    BeginsSuspended(q[0], 8);
    assert SuspendedEntry(Before(q, e)[0], p);
    BeforeShape(q, e);
    ShapeKeepsTids(q, Before(q, e));
    DispatchKeepsSuspended(Before(q, e), own, x, p);
  }

  lemma BeginsSuspended(t: Thread, f: bv32)
    requires !t.Terminated() && SuspendedState(f)
    ensures SuspendedEntry(t.SetState(f), t.parent)
  {
    hide Clear, SuspendedState, IsSet, IsCleared, Thread.Terminated, Thread.SetState, Thread.RemoveState;
    RunnableIsClear(t);
    StateOfCalls(t, f);
    RestOfCalls(t, f, t.SetState(f));
    BecomesSuspended(t.state, f, t.SetState(f).state);
  }

  lemma BecomesSuspended(s: bv32, f: bv32, u: bv32)
    requires Clear(s, 4) && SuspendedState(f) && IsSet(s, f, u)
    ensures SuspendedState(u)
  {
  }

  /** An unsuspend_suspended_threads for its process, or a thread_remove_state_by_id of the flag, ends it: the
      flag is cleared, and every other flag and everything else is as before. */
  lemma SuspensionEnds(q: Queue, e: Event, x: int, p: nat, f: bv32) returns (t: Thread, u: Thread)
    requires DistinctTids(q) && Enabled(q, e) && IsSuspended(q, x, p) && Clear(8, f)
    requires e == RemoveFlags(x, 8) || (e.UnsuspendAll? && p in e.parents)
    ensures t in q && u in After(q, e) && t.tid == x && u == t.(state := u.state)
    ensures Clear(u.state, 8) && Same(t.state, u.state, f)
  {
    var i :| 0 <= i < |q| && q[i].tid == x && SuspendedEntry(q[i], p);
    t := q[i];
    hide Clear, Same, Thread.RemoveState, SuspendedState;
    if e.RemoveFlags? {
      ByIdAt(q, x, 8, i);
      FlagCalls(t, 8, f);
    } else {
      UnsuspendAt(q, e.parents, i, f);
    }
    u := After(q, e)[i];
  }
}
