/** How soon a waiting runnable thread becomes the current one. */
module CpuProgress {
  import opened Powers
  import opened ReadyQueue
  import opened Starvation
  import opened Dispatching
  import opened SchedulerRuns

  /** Some pass of the dispatch reaps the entry right in front of thread `x`, so that `x` is at the head
      when the next pass begins, and that pass rotates it away without having looked at it. */
  ghost predicate PassedOver(q: Queue, own: set<nat>, x: int)
    requires HasRunnable(q)
    decreases |q|, Rank(q)
  {
    PassDecreases(q, own);
    var p := LoopPass(q, own);
    !p.done && ((p.reaped != [] && p.queue[0].tid == x) || PassedOver(p.queue, own, x))
  }

  /** A pass that does not end the loop leaves a waiting runnable thread at the head exactly when it reaps
      the one entry that was left in front of it. */
  lemma PassedOverIff(q: Queue, own: set<nat>, k: nat)
    requires 0 < k < |q| && q[k].Runnable() && DistinctTids(q)
    ensures var p := LoopPass(q, own);
      !p.done && p.queue != [] && p.queue[0].tid == q[k].tid
      <==> |AheadStep(q[..k])| == 1 && Reapable(Rotate(q)[0], own)
  {
    var r, a := Rotate(q), AheadStep(q[..k]);
    RotateAround(q, k);
    assert r[|a|] == q[k];
    RotateElements(q);
    DistinctRearranged(q, r);
    if a == [] {
      assert r[0] == q[k];
    } else if Reapable(r[0], own) {
      assert LoopPass(q, own).queue[0] == r[1];
      assert r[1].tid == q[k].tid ==> |a| == 1;
    }
  }

  /** The next pass then does not make it current, unless it is alone. */
  lemma HeadIsNotCurrentNext(q: Queue, own: set<nat>)
    requires |q| > 1 && DistinctTids(q)
    ensures var p := LoopPass(q, own); p.done ==> p.queue[0].tid != q[0].tid
  {
    assert Rotate(q)[0] == q[1];
  }

  /** One rotation brings a waiting entry closer. */
  lemma RotationProgress(q: Queue, k: nat)
    requires 0 < k < |q|
    ensures var r, p := Rotate(q), |AheadStep(q[..k])|;
      p < |q| && r[p] == q[k] && Potential(r[..p]) < Potential(q[..k])
  {
    hide Potential;
    RotateAround(q, k);
    RotationLowersPotential(q[..k]);
    var a := AheadStep(q[..k]);
    assert Rotate(q)[..|a|] == a;
  }

  /** One pass brings a waiting runnable thread closer; it is at the head behind a pass that does not end
      the loop only if that pass reaps. */
  lemma PassProgress(q: Queue, own: set<nat>, k: nat) returns (p: nat)
    requires 0 < k < |q| && q[k].Runnable()
    ensures var next := LoopPass(q, own);
      && p < |next.queue| && next.queue[p] == q[k] && Potential(next.queue[..p]) < Potential(q[..k])
      && (p == 0 ==> next.done || next.reaped != [])
  {
    hide Potential, Rotate, AheadStep;
    RotationProgress(q, k);
    var r := Rotate(q);
    p := |AheadStep(q[..k])|;
    if Reapable(r[0], own) {
      assert r[..p][1..] == r[1..][..p - 1];
      PotentialOfTail(r[..p]);
      p := p - 1;
    }
  }

  /** A dispatch that does not pass over a waiting runnable thread makes it current or lowers its potential. */
  lemma {:induction false} DispatchProgress(q: Queue, own: set<nat>, k: nat) returns (p: nat)
    requires 0 < k < |q| && q[k].Runnable() && HasRunnable(q)
    requires !PassedOver(q, own, q[k].tid)
    ensures var d := Dispatch(q, own).queue;
            && p < |d| && d[p] == q[k]
            && (p == 0 || Potential(d[..p]) < Potential(q[..k]))
    decreases |q|, Rank(q)
  {
    hide Potential, LoopPass, Rank;
    PassDecreases(q, own);
    p := PassProgress(q, own, k);
    var next := LoopPass(q, own);
    if !next.done {
      p := DispatchProgress(next.queue, own, p);
    }
  }

  /** With no thread to reap ahead of it, a waiting runnable thread is not passed over. */
  lemma {:induction false} NotPassedOver(q: Queue, own: set<nat>, k: nat)
    requires 0 < k < |q| && q[k].Runnable() && HasRunnable(q)
    requires forall i :: 0 <= i < k ==> !Reapable(q[i], own)
    ensures !PassedOver(q, own, q[k].tid)
    decreases |q|, Rank(q)
  {
    hide Rank;
    PassDecreases(q, own);
    RotateAround(q, k);
    AheadStepElements(q[..k]);
    var r, a := Rotate(q), AheadStep(q[..k]);
    assert r[|a|] == q[k];
    forall i | 0 <= i < |a| ensures !Reapable(r[i], own) { assert r[i] == a[i] && a[i] in q[..k]; }
    if !LoopPass(q, own).done {
      NotPassedOver(r, own, |a|);
    }
  }

  /** While thread `x` waits, it is runnable and not passed over when the event dispatches, and a
      prioritized insert does not go in front of it. */
  ghost predicate Undisturbed(q: Queue, e: Event, x: int)
    requires Enabled(q, e)
  {
    forall k | 0 < k < |q| && q[k].tid == x ::
      && (e.Fork? ==> !HasLower(q[..k], e.t))
      && (Dispatches(e) ==> Before(q, e)[k].Runnable() && !PassedOver(Before(q, e), e.own, x))
  }

  /** The same with a test on the queue: no thread to reap stands ahead of it. */
  ghost predicate Clear(q: Queue, e: Event, x: int)
    requires Enabled(q, e)
  {
    forall k | 0 < k < |q| && q[k].tid == x ::
      && (e.Fork? ==> !HasLower(q[..k], e.t))
      && (Dispatches(e) ==>
            Before(q, e)[k].Runnable() && forall i :: 0 <= i < k ==> !Reapable(Before(q, e)[i], e.own))
  }

  lemma ClearIsUndisturbed(q: Queue, e: Event, x: int)
    requires Enabled(q, e) && Clear(q, e, x)
    ensures Undisturbed(q, e, x)
  {
    BeforeShape(q, e);
    forall k | 0 < k < |q| && q[k].tid == x && Dispatches(e) ensures !PassedOver(Before(q, e), e.own, x) {
      NotPassedOver(Before(q, e), e.own, k);
    }
  }

  ghost predicate RunClear(q: Queue, es: seq<Event>, x: int)
    requires EnabledRun(q, es)
    decreases |es|
  {
    es == [] || (Clear(q, es[0], x) && RunClear(After(q, es[0]), es[1..], x))
  }

  lemma {:induction false} RunClearIsUndisturbed(q: Queue, es: seq<Event>, x: int)
    requires EnabledRun(q, es) && RunClear(q, es, x)
    ensures RunUndisturbed(q, es, x)
    decreases |es|
  {
    if es != [] {
      ClearIsUndisturbed(q, es[0], x);
      RunClearIsUndisturbed(After(q, es[0]), es[1..], x);
    }
  }

  ghost predicate RunUndisturbed(q: Queue, es: seq<Event>, x: int)
    requires EnabledRun(q, es)
    decreases |es|
  {
    es == [] || (Undisturbed(q, es[0], x) && RunUndisturbed(After(q, es[0]), es[1..], x))
  }

  function Dispatchings(es: seq<Event>): nat {
    if es == [] then 0 else (if Dispatches(es[0]) then 1 else 0) + Dispatchings(es[1..])
  }

  /** One of the first `bound` dispatches of the run makes thread `x` the current one. */
  ghost predicate BecomesCurrent(q: Queue, es: seq<Event>, x: int, bound: nat) {
    exists n: nat ::
      && n < |es| && Dispatches(es[n]) && Dispatchings(es[..n + 1]) <= bound
      && EnabledRun(q, es[..n + 1])
      && var r := RunEvents(q, es[..n + 1]); r != [] && r[0].tid == x
  }

  lemma ShapeKeepsPotential(q: Queue, r: Queue, k: nat)
    requires SameShape(q, r) && k <= |q|
    ensures Potential(q[..k]) == Potential(r[..k])
  {
    PotentialByPriority(q[..k], r[..k]);
  }

  lemma DispatchEventProgress(q: Queue, e: Event, k: nat) returns (p: nat)
    requires 0 < k < |q| && Enabled(q, e) && Undisturbed(q, e, q[k].tid) && Dispatches(e)
    ensures p < |After(q, e)| && After(q, e)[p].tid == q[k].tid
    ensures p == 0 || Potential(After(q, e)[..p]) < Potential(q[..k])
  {
    var b := Before(q, e);
    BeforeShape(q, e);
    ShapeKeepsPotential(q, b, k);
    p := DispatchProgress(b, e.own, k);
    if e.Tick? {
      var d := Dispatch(q, e.own).queue;
      assert SameShape(d, TickAll(d));
      ShapeKeepsPotential(d, TickAll(d), p);
    }
  }

  lemma OtherEventProgress(q: Queue, e: Event, k: nat)
    requires 0 < k < |q| && Enabled(q, e) && Undisturbed(q, e, q[k].tid) && !Dispatches(e)
    ensures k < |After(q, e)| && After(q, e)[k].tid == q[k].tid
    ensures Potential(After(q, e)[..k]) == Potential(q[..k])
  {
    if e.Append? {
      assert (q + [e.t])[..k] == q[..k];
    } else if e.Fork? {
      InsertBehind(q[..k], q[k..], e.t);
      assert q[..k] + q[k..] == q;
      assert After(q, e)[..k] == q[..k];
    } else {
      if e.SetFlags? { SetByIdShape(q, e.tid, e.flags); }
      if e.RemoveFlags? { RemoveByIdShape(q, e.tid, e.flags); }
      assert SameShape(q, After(q, e));
      ShapeKeepsPotential(q, After(q, e), k);
    }
  }

  lemma CurrentLater(q: Queue, es: seq<Event>, x: int, bound: nat)
    requires es != [] && Enabled(q, es[0])
    requires EnabledRun(After(q, es[0]), es[1..])
    requires BecomesCurrent(After(q, es[0]), es[1..], x, bound)
    ensures BecomesCurrent(q, es, x, bound + if Dispatches(es[0]) then 1 else 0)
  {
    var r, rest := After(q, es[0]), es[1..];
    var n: nat :|
      && n < |rest| && Dispatches(rest[n]) && Dispatchings(rest[..n + 1]) <= bound
      && EnabledRun(r, rest[..n + 1])
      && RunEvents(r, rest[..n + 1]) != [] && RunEvents(r, rest[..n + 1])[0].tid == x;
    var m, pre := n + 1, es[..n + 1 + 1];
    assert pre[1..] == rest[..n + 1] && pre[0] == es[0];
    assert es[..m + 1] == pre;
    assert Dispatches(es[m]);
    assert RunEvents(q, es[..m + 1]) == RunEvents(r, rest[..n + 1]);
  }

  lemma CurrentNow(q: Queue, es: seq<Event>, x: int)
    requires es != [] && Enabled(q, es[0]) && Dispatches(es[0])
    requires After(q, es[0]) != [] && After(q, es[0])[0].tid == x
    ensures BecomesCurrent(q, es, x, 1)
  {
    OneEvent(q, es[0]);
    assert es[..0 + 1] == [es[0]];
  }

  lemma OneEvent(q: Queue, e: Event)
    requires Enabled(q, e)
    ensures EnabledRun(q, [e]) && RunEvents(q, [e]) == After(q, e)
    ensures Dispatchings([e]) == if Dispatches(e) then 1 else 0
  {
    hide Enabled, After;
    assert [e][1..] == [];
    assert RunEvents(After(q, e), []) == After(q, e);
  }

  lemma CurrentWithin(q: Queue, es: seq<Event>, x: int, bound: nat, wider: nat)
    requires BecomesCurrent(q, es, x, bound) && bound <= wider
    ensures BecomesCurrent(q, es, x, wider)
  {
    var n: nat :|
      && n < |es| && Dispatches(es[n]) && Dispatchings(es[..n + 1]) <= bound
      && EnabledRun(q, es[..n + 1])
      && RunEvents(q, es[..n + 1]) != [] && RunEvents(q, es[..n + 1])[0].tid == x;
    assert Dispatchings(es[..n + 1]) <= wider;
  }

  lemma {:induction false} PotentialBoundsDispatches(q: Queue, k: nat, es: seq<Event>)
    requires 0 < k < |q| && EnabledRun(q, es) && RunUndisturbed(q, es, q[k].tid)
    requires Dispatchings(es) >= Potential(q[..k])
    ensures BecomesCurrent(q, es, q[k].tid, Potential(q[..k]))
    decreases |es|
  {
    var x := q[k].tid;
    RotationLowersPotential(q[..k]);
    var p := k;
    if Dispatches(es[0]) {
      p := DispatchEventProgress(q, es[0], k);
    } else {
      OtherEventProgress(q, es[0], k);
    }
    if p == 0 {
      CurrentNow(q, es, x);
      CurrentWithin(q, es, x, 1, Potential(q[..k]));
    } else {
      var r := After(q, es[0]);
      PotentialBoundsDispatches(r, p, es[1..]);
      CurrentLater(q, es, x, Potential(r[..p]));
      CurrentWithin(q, es, x, Potential(r[..p]) + if Dispatches(es[0]) then 1 else 0, Potential(q[..k]));
    }
  }

  /** A thread with `k` entries ahead that is runnable at every dispatch becomes current within
      2^k - 1 dispatches, however threads are appended, suspended or put to sleep in between and whatever
      is reaped, as long as no dispatch reaps right in front of it and no insert goes in front of it. */
  lemma GetsTheCpu(q: Queue, k: nat, es: seq<Event>)
    requires 0 < k < |q| && EnabledRun(q, es) && RunUndisturbed(q, es, q[k].tid)
    requires Dispatchings(es) >= Pow2(k) - 1
    ensures BecomesCurrent(q, es, q[k].tid, Pow2(k) - 1)
  {
    PotentialBoundsDispatches(q, k, es);
    CurrentWithin(q, es, q[k].tid, Potential(q[..k]), Pow2(k) - 1);
  }

  /** In particular as long as no thread ahead of it is to be reaped when the queue is dispatched. */
  lemma GetsTheCpuIfClear(q: Queue, k: nat, es: seq<Event>)
    requires 0 < k < |q| && EnabledRun(q, es) && RunClear(q, es, q[k].tid)
    requires Dispatchings(es) >= Pow2(k) - 1
    ensures BecomesCurrent(q, es, q[k].tid, Pow2(k) - 1)
  {
    RunClearIsUndisturbed(q, es, q[k].tid);
    GetsTheCpu(q, k, es);
  }

  // ---------------------------------------------------------------- passed over

  /** Runnable threads of one priority. */
  ghost predicate Peers(q: Queue, priority: nat) {
    forall t :: t in q ==> t.Runnable() && t.priority == priority
  }

  function Yields(n: nat): (es: seq<Event>)
    ensures |es| == n && forall i :: 0 <= i < n ==> es[i] == Yield({})
  {
    seq(n, i => Yield({}))
  }

  lemma {:induction false} DispatchingsOfYields(n: nat)
    ensures Dispatchings(Yields(n)) == n
    ensures n > 0 ==> Yields(n)[1..] == Yields(n - 1)
  {
    if n > 0 {
      assert Yields(n)[1..] == Yields(n - 1);
      DispatchingsOfYields(n - 1);
    }
  }

  lemma PeerGoesLast(q: Queue, t: Thread)
    requires forall u :: u in q ==> u.priority == t.priority
    ensures InsertPrioritized(q, t) == q + [t]
  {
    if q != [] {
      assert !HasLower(q[..|q| - 1], t);
      InsertBehind(q[..|q| - 1], [q[|q| - 1]], t);
      assert q[..|q| - 1] + [q[|q| - 1]] == q;
    }
  }

  /** One dispatch among peers. */
  lemma PeerDispatch(q: Queue, priority: nat)
    requires Peers(q, priority) && |q| > 1
    ensures Enabled(q, Yield({})) && After(q, Yield({})) == q[1..] + [q[0]]
    ensures Peers(q[1..] + [q[0]], priority)
  {
    assert q[0] in q && q[1] in q;
    PeerGoesLast(q[1..], q[0]);
    assert HasRunnable(q) by { assert q[0].Runnable(); }
    assert Rotate(q)[0] == q[1];
  }

  /** Peers take turns. */
  lemma {:induction false} RoundRobin(q: Queue, n: nat, priority: nat)
    requires Peers(q, priority) && n < |q|
    ensures EnabledRun(q, Yields(n)) && RunEvents(q, Yields(n)) == q[n..] + q[..n]
    decreases n
  {
    hide Peers, Enabled, After;
    if n == 0 {
      assert q[0..] + q[..0] == q;
    } else {
      var r := q[1..] + [q[0]];
      PeerDispatch(q, priority);
      RoundRobin(r, n - 1, priority);
      DispatchingsOfYields(n);
      assert r[n - 1..] + r[..n - 1] == q[n..] + q[..n];
    }
  }

  /** The pass that reaps in front of `x`. */
  lemma ReapingPass(a: Thread, dead: Thread, x: Thread, rest: Queue)
    requires Peers([a, x] + rest, a.priority) && dead.Terminated() && dead.priority <= a.priority
    ensures LoopPass([a, dead, x] + rest, {}) == Pass([x] + rest + [a], [dead], false)
  {
    var q, next := [a, dead, x] + rest, [x] + rest + [a];
    assert a in [a, x] + rest && x in [a, x] + rest && forall t :: t in rest ==> t in [a, x] + rest;
    PeerGoesLast([x] + rest, a);
    RotatePastDead(dead, [x] + rest, a);
    assert q[1..] == [dead] + ([x] + rest) && ([dead] + next)[1..] == next;
  }

  /** The first dispatch reaps right in front of `x`, which goes to the end of the queue. */
  lemma ReapInFront(a: Thread, dead: Thread, x: Thread, rest: Queue)
    requires Peers([a, x] + rest, a.priority) && dead.Terminated() && dead.priority <= a.priority
    ensures HasRunnable([a, dead, x] + rest) && PassedOver([a, dead, x] + rest, {}, x.tid)
    ensures Dispatch([a, dead, x] + rest, {}).queue == rest + [a, x]
  {
    hide LoopPass;
    var q, next := [a, dead, x] + rest, [x] + rest + [a];
    assert a in [a, x] + rest && forall t :: t in next ==> t in [a, x] + rest;
    assert HasRunnable(q) by { assert q[0].Runnable(); }
    ReapingPass(a, dead, x, rest);
    PassDecreases(q, {});
    PeerDispatch(next, a.priority);
    assert next[1..] + [x] == rest + [a, x];
  }

  lemma RotatePastDead(dead: Thread, q: Queue, a: Thread)
    requires q != [] && InsertPrioritized(q, a) == q + [a] && dead.priority <= a.priority
    ensures InsertPrioritized([dead] + q, a) == [dead] + (q + [a])
  {
    assert ([dead] + q)[1..] == q;
  }

  lemma PeersRearranged(q: Queue, r: Queue, priority: nat)
    requires Peers(q, priority) && forall t :: t in r ==> t in q
    ensures Peers(r, priority)
  {
  }

  /** Who is current after the first `m + 1` dispatches. */
  lemma HeadAfterReap(a: Thread, dead: Thread, x: Thread, rest: Queue, m: nat)
    requires Peers([a, x] + rest, a.priority) && dead.Terminated() && dead.priority <= a.priority
    requires DistinctTids([a, dead, x] + rest) && m < |rest| + 2
    ensures var q, es := [a, dead, x] + rest, Yields(m + 1);
      && EnabledRun(q, es) && Dispatchings(es) == m + 1
      && RunEvents(q, es) != [] && (RunEvents(q, es)[0].tid == x.tid <==> m == |rest| + 1)
  {
    hide Peers, Dispatch, HasRunnable, PassedOver;
    var q, r := [a, dead, x] + rest, rest + [a, x];
    ReapInFront(a, dead, x, rest);
    DispatchingsOfYields(m + 1);
    assert Enabled(q, Yield({})) && After(q, Yield({})) == r;
    PeersRearranged([a, x] + rest, r, a.priority);
    RoundRobin(r, m, a.priority);
    assert RunEvents(q, Yields(m + 1))[0] == r[m];
    if m <= |rest| {
      assert r[m] == if m < |rest| then q[3 + m] else q[0];
      assert q[2] == x;
    }
  }

  /** With a reap in front of it no bound holds that depends on the entries ahead alone: of peers, a
      thread with two entries ahead, one of them dead, waits for all the others behind it as well. */
  lemma PassedOverWaits(a: Thread, dead: Thread, x: Thread, rest: Queue)
    requires Peers([a, x] + rest, a.priority) && dead.Terminated() && dead.priority <= a.priority
    requires DistinctTids([a, dead, x] + rest)
    ensures var q, n := [a, dead, x] + rest, |rest| + 2;
      && q[2] == x && EnabledRun(q, Yields(n))
      && BecomesCurrent(q, Yields(n), x.tid, n) && !BecomesCurrent(q, Yields(n), x.tid, n - 1)
  {
    var q, n := [a, dead, x] + rest, |rest| + 2;
    var es := Yields(n);
    HeadAfterReap(a, dead, x, rest, n - 1);
    assert es[..n - 1 + 1] == es && Dispatches(es[n - 1]);
    assert BecomesCurrent(q, es, x.tid, n);
    if BecomesCurrent(q, es, x.tid, n - 1) {
      var i: nat :| i < n && Dispatchings(es[..i + 1]) <= n - 1 && EnabledRun(q, es[..i + 1])
        && RunEvents(q, es[..i + 1]) != [] && RunEvents(q, es[..i + 1])[0].tid == x.tid;
      assert es[..i + 1] == Yields(i + 1);
      HeadAfterReap(a, dead, x, rest, i);
      assert false;
    }
  }
}
