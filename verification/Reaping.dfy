/** Process blocks, the threads that keep them alive, and the dispatch that frees them. */
module Reaping {
  import opened ReadyQueue
  import opened Dispatching
  import opened SchedulerRuns

  /** A process block; `tids` are the ids on its thread list. */
  datatype Proc = Proc(id: int, pageDirectory: nat, livingThreads: nat, tids: seq<int>)

  /** The blocks in use by address, the directories in use, and what has been freed so far. */
  datatype Store = Store(
    blocks: map<nat, Proc>, dirs: set<nat>, freedBlocks: seq<nat>, freedDirs: seq<nat>)

  function CountParent(q: Queue, a: nat): nat {
    if q == [] then 0 else (if q[0].parent == a then 1 else 0) + CountParent(q[1..], a)
  }

  /** The processes whose page directory is the loaded one. */
  function Owners(s: Store, dir: nat): set<nat> {
    set a | a in s.blocks && s.blocks[a].pageDirectory == dir
  }

  // ---------------------------------------------------------------- reaping one thread

  /** The thread's process is in use and counts it. */
  predicate Charged(s: Store, t: Thread) {
    && t.parent in s.blocks
    && s.blocks[t.parent].livingThreads > 0
    && s.blocks[t.parent].pageDirectory in s.dirs
  }

  /** A reaped thread leaves its process; the last one takes the directory and the block with it. */
  function Reap(s: Store, t: Thread): Store
    requires Charged(s, t)
  {
    var p := s.blocks[t.parent];
    var p' := if t.kernelESP != 0 then p.(livingThreads := p.livingThreads - 1) else p;
    if p'.livingThreads == 0 then
      Store(s.blocks - {t.parent}, s.dirs - {p.pageDirectory},
            s.freedBlocks + [t.parent], s.freedDirs + [p.pageDirectory])
    else s.(blocks := s.blocks[t.parent := p'])
  }

  /** A thread without a kernel stack is not taken off its process. Of another the process counts one less, and
      goes with it only if it was the last. */
  lemma ReapCounts(s: Store, t: Thread, a: nat)
    requires Charged(s, t)
    ensures t.kernelESP == 0 ==> Reap(s, t) == s
    ensures a != t.parent ==> (a in Reap(s, t).blocks <==> a in s.blocks)
    ensures a != t.parent && a in s.blocks ==> Reap(s, t).blocks[a] == s.blocks[a]
    ensures t.parent in Reap(s, t).blocks <==> t.kernelESP == 0 || s.blocks[t.parent].livingThreads > 1
  {
    var p := s.blocks[t.parent];
    assert t.kernelESP == 0 ==> s.blocks[t.parent := p] == s.blocks;
  }

  ghost predicate ChargedAll(s: Store, ts: Queue)
    decreases |ts|
  {
    ts == [] || (Charged(s, ts[0]) && ChargedAll(Reap(s, ts[0]), ts[1..]))
  }

  ghost function ReapAll(s: Store, ts: Queue): Store
    requires ChargedAll(s, ts)
    decreases |ts|
  {
    if ts == [] then s else ReapAll(Reap(s, ts[0]), ts[1..])
  }

  // ---------------------------------------------------------------- the accounting invariant

  ghost predicate DirsDistinct(s: Store) {
    forall a, b :: a in s.blocks && b in s.blocks && a != b ==>
      s.blocks[a].pageDirectory != s.blocks[b].pageDirectory
  }

  /** livingThreads counts the queue entries of the process, and no block outlives its entries. */
  ghost predicate Accounted(s: Store, q: Queue) {
    && (forall t :: t in q ==> t.parent in s.blocks && t.kernelESP != 0)
    && (forall a :: a in s.blocks ==>
          s.blocks[a].livingThreads == CountParent(q, a) > 0 && s.blocks[a].pageDirectory in s.dirs)
    && DirsDistinct(s)
  }

  lemma {:induction false} CountPositive(q: Queue, a: nat)
    ensures CountParent(q, a) > 0 <==> exists t :: t in q && t.parent == a
  {
    if q != [] {
      CountPositive(q[1..], a);
      assert q == [q[0]] + q[1..];
    }
  }

  lemma {:induction false} CountConcat(q: Queue, r: Queue, a: nat)
    ensures CountParent(q + r, a) == CountParent(q, a) + CountParent(r, a)
  {
    if q == [] {
      assert q + r == r;
    } else {
      assert (q + r)[1..] == q[1..] + r;
      CountConcat(q[1..], r, a);
    }
  }

  /** The queue without its `i`-th element. */
  lemma Without(r: Queue, i: nat, a: nat) returns (rest: Queue)
    requires i < |r|
    ensures rest == r[..i] + r[i + 1..] && multiset(rest) == multiset(r) - multiset{r[i]}
    ensures CountParent(r, a) == CountParent(rest, a) + (if r[i].parent == a then 1 else 0)
  {
    rest := r[..i] + r[i + 1..];
    assert r == r[..i] + ([r[i]] + r[i + 1..]);
    CountConcat(r[..i], [r[i]] + r[i + 1..], a);
    CountConcat(r[..i], r[i + 1..], a);
    assert ([r[i]] + r[i + 1..])[1..] == r[i + 1..];
  }

  lemma IndexIn(r: Queue, t: Thread) returns (i: nat)
    requires t in multiset(r)
    ensures i < |r| && r[i] == t
  {
    i :| i < |r| && r[i] == t;
  }

  /** The same element taken out of two queues with the same elements. */
  lemma SameRest(q: Queue, r: Queue, a: nat) returns (rest: Queue)
    requires q != [] && multiset(q) == multiset(r)
    ensures multiset(rest) == multiset(q) - multiset{q[0]} == multiset(q[1..])
    ensures CountParent(q, a) - CountParent(q[1..], a) == CountParent(r, a) - CountParent(rest, a)
  {
    hide CountParent;
    assert q[0] in multiset(q);
    var i := IndexIn(r, q[0]);
    rest := Without(r, i, a);
    var tail := Without(q, 0, a);
    assert tail == q[1..];
  }

  lemma {:induction false} CountByElements(q: Queue, r: Queue, a: nat)
    requires multiset(q) == multiset(r)
    ensures CountParent(q, a) == CountParent(r, a)
    decreases |q|
  {
    assert |multiset(q)| == |multiset(r)|;
    if q != [] {
      hide CountParent;
      var rest := SameRest(q, r, a);
      CountByElements(q[1..], rest, a);
    }
  }

  lemma {:induction false} CountByShape(q: Queue, r: Queue, a: nat)
    requires SameShape(q, r)
    ensures CountParent(q, a) == CountParent(r, a)
  {
    if q != [] {
      CountByShape(q[1..], r[1..], a);
    }
  }

  lemma ShapeKeepsAccounts(s: Store, q: Queue, r: Queue)
    requires Accounted(s, q) && SameShape(q, r)
    ensures Accounted(s, r)
  {
    forall t | t in r ensures t.parent in s.blocks && t.kernelESP != 0 {
      var i :| 0 <= i < |r| && r[i] == t;
      assert q[i] in q;
    }
    forall a | a in s.blocks ensures CountParent(r, a) == CountParent(q, a) { CountByShape(q, r, a); }
  }

  /** Reaping the entries `ts` of a queue leaves the rest accounted for. */
  lemma {:induction false} ReapAllAccounted(s: Store, ts: Queue, q: Queue)
    requires Accounted(s, ts + q)
    ensures ChargedAll(s, ts)
    ensures Accounted(ReapAll(s, ts), q)
    decreases |ts|
  {
    if ts == [] {
      assert ts + q == q;
    } else {
      var t := ts[0];
      assert ts + q == [t] + (ts[1..] + q);
      ReapOneAccounted(s, t, ts[1..] + q);
      ReapAllAccounted(Reap(s, t), ts[1..], q);
    }
  }

  lemma ReapOneAccounted(s: Store, t: Thread, q: Queue)
    requires Accounted(s, [t] + q)
    ensures Charged(s, t)
    ensures Accounted(Reap(s, t), q)
  {
    assert t in [t] + q;
    assert ([t] + q)[1..] == q;
    CountPositive(q, t.parent);
    var r := Reap(s, t);
    forall a | a in s.blocks
      ensures CountParent([t] + q, a) == (if t.parent == a then 1 else 0) + CountParent(q, a)
    {
    }
    forall u | u in q ensures u.parent in r.blocks && u.kernelESP != 0 {
      assert u in [t] + q;
    }
  }

  // ---------------------------------------------------------------- dispatch

  /** What a dispatch frees: with everything accounted for, a block and its directory go exactly
      when the last queue entry of the process is reaped. */
  lemma DispatchAccounted(s: Store, q: Queue, dir: nat)
    requires Accounted(s, q) && HasRunnable(q)
    ensures var d := Dispatch(q, Owners(s, dir));
            && ChargedAll(s, d.reaped)
            && Accounted(ReapAll(s, d.reaped), d.queue)
  {
    var d := Dispatch(q, Owners(s, dir));
    DispatchKeepsThreads(q, Owners(s, dir));
    var all := d.reaped + d.queue;
    assert multiset(all) == multiset(q);
    forall a | a in s.blocks ensures CountParent(all, a) == CountParent(q, a) {
      CountByElements(all, q, a);
    }
    forall t | t in all ensures t in q { assert t in multiset(all); assert t in multiset(q); }
    assert Accounted(s, all);
    ReapAllAccounted(s, d.reaped, d.queue);
  }

  /** No reap of a thread whose process has another directory frees directory `dir` or a block that has it. */
  lemma {:induction false} ReapAllKeepsDir(s: Store, ts: Queue, dir: nat)
    requires ChargedAll(s, ts) && forall t :: t in ts ==> t.parent !in Owners(s, dir)
    ensures var r := ReapAll(s, ts);
      && Owners(r, dir) == Owners(s, dir) && (dir in r.dirs <==> dir in s.dirs)
      && s.freedDirs <= r.freedDirs && forall k :: |s.freedDirs| <= k < |r.freedDirs| ==> r.freedDirs[k] != dir
    decreases |ts|
  {
    if ts != [] {
      var r := Reap(s, ts[0]);
      assert ts == [ts[0]] + ts[1..];
      assert Owners(r, dir) == Owners(s, dir);
      ReapAllKeepsDir(r, ts[1..], dir);
    }
  }

  datatype Outcome = Outcome(queue: Queue, store: Store)

  /** The queue and the process blocks after a dispatch with directory `dir` loaded. */
  ghost function DispatchOutcome(q: Queue, s: Store, dir: nat): (o: Outcome)
    requires HasRunnable(q) && Accounted(s, q)
    ensures o.queue != [] && o.queue[0].Runnable() && Accounted(o.store, o.queue)
  {
    DispatchAccounted(s, q, dir);
    var d := Dispatch(q, Owners(s, dir));
    Outcome(d.queue, ReapAll(s, d.reaped))
  }

  /** A dispatch never frees the address space it runs in: the loaded directory stays in use, and so does the
      process that owns it, even when all its threads are terminated. */
  lemma LoadedSpaceSurvives(s: Store, q: Queue, dir: nat, a: nat)
    requires Accounted(s, q) && HasRunnable(q)
    ensures var r := DispatchOutcome(q, s, dir).store;
      && (dir in r.dirs <==> dir in s.dirs)
      && (a in s.blocks && s.blocks[a].pageDirectory == dir ==> a in r.blocks && r.blocks[a].pageDirectory == dir)
      && s.freedDirs <= r.freedDirs && forall k :: |s.freedDirs| <= k < |r.freedDirs| ==> r.freedDirs[k] != dir
  {
    hide Rank, ReapAll, Accounted;
    DispatchAccounted(s, q, dir);
    var d := Dispatch(q, Owners(s, dir));
    DispatchKeepsThreads(q, Owners(s, dir));
    ReapAllKeepsDir(s, d.reaped, dir);
    assert a in Owners(s, dir) <==> a in Owners(ReapAll(s, d.reaped), dir);
  }
}
