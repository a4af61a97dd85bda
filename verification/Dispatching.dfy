/** `scheduler_dispatch` as a function on the ready queue, and what it promises. */
module Dispatching {
  import opened Powers
  import opened ReadyQueue
  import opened Starvation

  ghost predicate HasRunnable(q: Queue) {
    exists i :: 0 <= i < |q| && q[i].Runnable()
  }

  /** A terminated thread is reaped unless its process owns the address space in use. */
  predicate Reapable(t: Thread, own: set<nat>) {
    t.Terminated() && t.parent !in own
  }

  datatype Pass = Pass(queue: Queue, reaped: Queue, done: bool)

  /** One pass of the dispatch loop; `own` are the processes whose directory is loaded. */
  function LoopPass(q: Queue, own: set<nat>): Pass
    requires q != []
  {
    var r := Rotate(q);
    if r[0].Terminated() then
      if r[0].parent in own then Pass(r, [], false) else Pass(r[1..], [r[0]], false)
    else Pass(r, [], !r[0].Sleeping() && !r[0].Suspended())
  }

  // ---------------------------------------------------------------- termination

  function FirstRunnable(q: Queue): (k: nat)
    requires HasRunnable(q)
    ensures k < |q| && q[k].Runnable()
    ensures forall i :: 0 <= i < k ==> !q[i].Runnable()
  {
    if q[0].Runnable() then 0
    else
      assert HasRunnable(q[1..]) by {
        var i :| 0 <= i < |q| && q[i].Runnable();
        assert q[1..][i - 1] == q[i];
      }
      1 + FirstRunnable(q[1..])
  }

  /** The rotations left for the first runnable thread; one at the head has yet to be looked at. */
  ghost function Rank(q: Queue): nat
    requires HasRunnable(q)
  {
    var k := FirstRunnable(q);
    if k == 0 then Pow2(|q|) else Potential(q[..k])
  }

  lemma RunnableStays(q: Queue)
    requires HasRunnable(q)
    ensures HasRunnable(Rotate(q))
    ensures !Rotate(q)[0].Runnable() ==> HasRunnable(Rotate(q)[1..])
  {
    var k, r := FirstRunnable(q), Rotate(q);
    RotateElements(q);
    assert q[k] in multiset(q);
    assert q[k] in multiset(r);
    var i :| 0 <= i < |r| && r[i] == q[k];
    if i > 0 {
      assert r[1..][i - 1] == r[i];
    }
  }

  lemma FirstRunnableUnique(q: Queue, k: nat)
    requires k < |q| && q[k].Runnable() && forall i :: 0 <= i < k ==> !q[i].Runnable()
    ensures FirstRunnable(q) == k
  {
  }

  /** With only waiting threads ahead, a rotation brings the first runnable thread closer. */
  lemma RotationRank(q: Queue)
    requires HasRunnable(q) && HasRunnable(Rotate(q))
    requires !Rotate(q)[0].Runnable()
    ensures Rank(Rotate(q)) < Rank(q)
  {
    var k, r := FirstRunnable(q), Rotate(q);
    if k == 0 {
      Pow2Monotone(FirstRunnable(r), |q|);
    } else {
      var a, z := AheadStep(q[..k]), BehindStep(q, k);
      RotateAround(q, k);
      AheadStepElements(q[..k]);
      forall j | 0 <= j < |a| ensures !r[j].Runnable() {
        assert r[j] == a[j] && a[j] in q[..k];
      }
      FirstRunnableUnique(r, |a|);
      assert r[..|a|] == a;
      RotationLowersPotential(q[..k]);
    }
  }

  lemma PassDecreases(q: Queue, own: set<nat>)
    requires HasRunnable(q)
    ensures var p := LoopPass(q, own);
            !p.done ==> HasRunnable(p.queue) &&
                        (|p.queue| < |q| || (|p.queue| == |q| && Rank(p.queue) < Rank(q)))
    ensures var p := LoopPass(q, own);
            p.done ==> p.queue != [] && p.queue[0].Runnable()
  {
    RunnableStays(q);
    if !Rotate(q)[0].Runnable() {
      RotationRank(q);
    }
  }

  datatype Dispatched = Dispatched(queue: Queue, reaped: Queue)

  /** The dispatch loop: it ends, with a runnable thread at the head. */
  function Dispatch(q: Queue, own: set<nat>): (d: Dispatched)
    requires HasRunnable(q)
    ensures d.queue != [] && d.queue[0].Runnable()
    decreases |q|, Rank(q)
  {
    PassDecreases(q, own);
    var p := LoopPass(q, own);
    if p.done then Dispatched(p.queue, [])
    else
      var d := Dispatch(p.queue, own);
      Dispatched(d.queue, p.reaped + d.reaped)
  }

  /** The loop leaves within `n` passes. */
  predicate Leaves(q: Queue, own: set<nat>, n: nat)
    decreases n
  {
    n > 0 && q != [] && (LoopPass(q, own).done || Leaves(LoopPass(q, own).queue, own, n - 1))
  }

  lemma {:induction false} LeavesImpliesRunnable(q: Queue, own: set<nat>, n: nat)
    requires Leaves(q, own, n)
    ensures HasRunnable(q)
    decreases n
  {
    var p := LoopPass(q, own);
    RotateElements(q);
    if !p.done {
      LeavesImpliesRunnable(p.queue, own, n - 1);
    }
    var i :| 0 <= i < |p.queue| && p.queue[i].Runnable();
    var t := p.queue[i];
    assert t in Rotate(q);
    assert t in multiset(q);
  }

  lemma {:induction false} RunnableImpliesLeaves(q: Queue, own: set<nat>) returns (n: nat)
    requires HasRunnable(q)
    ensures Leaves(q, own, n)
    decreases |q|, Rank(q)
  {
    PassDecreases(q, own);
    n := 1;
    if !LoopPass(q, own).done {
      var m := RunnableImpliesLeaves(LoopPass(q, own).queue, own);
      n := m + 1;
    }
  }

  ghost predicate LoopEnds(q: Queue, own: set<nat>) {
    exists n: nat :: Leaves(q, own, n)
  }

  /** Dispatch comes to an end exactly when some thread is neither terminated, asleep nor suspended. */
  lemma DispatchEndsIffRunnable(q: Queue, own: set<nat>)
    ensures LoopEnds(q, own) <==> HasRunnable(q)
  {
    if HasRunnable(q) {
      var n := RunnableImpliesLeaves(q, own);
    }
    if LoopEnds(q, own) {
      var n: nat :| Leaves(q, own, n);
      LeavesImpliesRunnable(q, own, n);
    }
  }

  // ---------------------------------------------------------------- what is kept

  lemma PassKeepsThreads(q: Queue, own: set<nat>)
    requires q != []
    ensures var p := LoopPass(q, own);
            && multiset(p.queue) + multiset(p.reaped) == multiset(q)
            && forall t :: t in p.reaped ==> Reapable(t, own)
  {
    RotateElements(q);
    var r := Rotate(q);
    assert r == [r[0]] + r[1..];
  }

  /** Dispatch keeps every thread but the reaped ones, and reaps only terminated threads of
      processes whose address space is not loaded. */
  lemma {:induction false} DispatchKeepsThreads(q: Queue, own: set<nat>)
    requires HasRunnable(q)
    ensures var d := Dispatch(q, own); multiset(d.queue) + multiset(d.reaped) == multiset(q)
    ensures forall t :: t in Dispatch(q, own).reaped ==> Reapable(t, own)
    decreases |q|, Rank(q)
  {
    PassDecreases(q, own);
    PassKeepsThreads(q, own);
    var p := LoopPass(q, own);
    if !p.done {
      DispatchKeepsThreads(p.queue, own);
      var d := Dispatch(p.queue, own);
      assert multiset(p.reaped + d.reaped) == multiset(p.reaped) + multiset(d.reaped);
    } else {
      assert p.reaped == [];
    }
  }

  // ---------------------------------------------------------------- what is reaped

  /** The threads that the passes find at the head after their rotations. */
  ghost function Heads(q: Queue, own: set<nat>): (h: Queue)
    requires HasRunnable(q)
    ensures h != []
    decreases |q|, Rank(q)
  {
    PassDecreases(q, own);
    var p := LoopPass(q, own);
    [Rotate(q)[0]] + if p.done then [] else Heads(p.queue, own)
  }

  function ReapableAmong(ts: Queue, own: set<nat>): Queue {
    if ts == [] then [] else (if Reapable(ts[0], own) then [ts[0]] else []) + ReapableAmong(ts[1..], own)
  }

  lemma FirstHead(q: Queue, own: set<nat>)
    requires HasRunnable(q)
    ensures var (p, x, d) := (LoopPass(q, own), Rotate(q)[0], Dispatch(q, own));
      if p.done then x.Runnable() && Heads(q, own) == [x] && d.queue[0] == x && d.reaped == [] && !Reapable(x, own)
      else
        && !x.Runnable() && HasRunnable(p.queue)
        && Heads(q, own) == [x] + Heads(p.queue, own)
        && d.queue == Dispatch(p.queue, own).queue
        && d.reaped == (if Reapable(x, own) then [x] else []) + Dispatch(p.queue, own).reaped
  {
    hide Rank, HasRunnable, Rotate;
    PassDecreases(q, own);
  }

  /** Dispatch looks at heads until the first that is runnable, which then is the current thread, and reaps
      every reapable one of them, in that order, and nothing else. */
  lemma {:induction false} ReapsItsHeads(q: Queue, own: set<nat>)
    requires HasRunnable(q)
    ensures var (h, d) := (Heads(q, own), Dispatch(q, own));
      && d.reaped == ReapableAmong(h, own)
      && d.queue[0] == h[|h| - 1] && h[|h| - 1].Runnable()
      && forall i :: 0 <= i < |h| - 1 ==> !h[i].Runnable()
    decreases |q|, Rank(q)
  {
    PassDecreases(q, own);
    FirstHead(q, own);
    hide Rank, HasRunnable, Rotate, Heads, Reapable, LoopPass, Thread.Runnable;
    var p := LoopPass(q, own);
    if !p.done {
      ReapsItsHeads(p.queue, own);
    }
  }
}
