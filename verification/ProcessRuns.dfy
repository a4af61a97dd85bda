/** Runs of process creation, thread creation, termination and dispatch. */
module ProcessRuns {
  import opened ReadyQueue
  import opened Dispatching
  import opened SchedulerRuns
  import opened Reaping

  /** The process list holds addresses of blocks; `created` and `createdDirs` log every creation. */
  datatype World = World(
    queue: Queue, store: Store, listed: seq<nat>, created: seq<nat>, createdDirs: seq<nat>)

  // ---------------------------------------------------------------- operations

  /** The first listed block with the process id, as an index of the list. */
  function FindProcess(s: Store, listed: seq<nat>, id: int): (i: nat)
    requires forall a :: a in listed ==> a in s.blocks
    ensures i <= |listed|
    ensures i < |listed| ==> s.blocks[listed[i]].id == id
    ensures forall j :: 0 <= j < i ==> s.blocks[listed[j]].id != id
  {
    if listed == [] || s.blocks[listed[0]].id == id then 0
    else 1 + FindProcess(s, listed[1..], id)
  }

  function FreeId(s: Store, listed: seq<nat>, from: int := 1): (id: int)
    requires forall a :: a in listed ==> a in s.blocks
    ensures id >= from
    ensures forall a :: a in listed ==> s.blocks[a].id < id
    decreases |listed|
  {
    if listed == [] then from
    else
      var p := s.blocks[listed[0]];
      var id := FreeId(s, listed[1..], if p.id >= from then p.id + 1 else from);
      assert listed == [listed[0]] + listed[1..];
      id
  }

  /** Exactly so: it is 1, or one more than an id in use. */
  lemma {:induction false} FreeIdIsNext(s: Store, listed: seq<nat>, from: int)
    requires forall a :: a in listed ==> a in s.blocks
    ensures FreeId(s, listed, from) == from || exists a :: a in listed && s.blocks[a].id + 1 == FreeId(s, listed, from)
    decreases |listed|
  {
    if listed != [] {
      var p := s.blocks[listed[0]];
      FreeIdIsNext(s, listed[1..], if p.id >= from then p.id + 1 else from);
    }
  }

  /** remove_by_tid on every id of a thread list. */
  function TerminateAll(q: Queue, tids: seq<int>): Queue
    decreases |tids|
  {
    if tids == [] then q else TerminateAll(SetById(q, tids[0], THREAD_TERMINATE), tids[1..])
  }

  datatype Op =
    | Create(a: nat, dir: nat, t: Thread)           // createProcess with its main thread
    | AddThread(t: Thread, prioritized: bool)       // a further thread of a listed process
    | TerminateById(id: int, dir: nat)              // terminateProcessById
    | DispatchNow(dir: nat)                         // scheduler_dispatch, `dir` being loaded
    | Touch(i: nat, t: Thread)                      // any other change of a thread's state

  /** A new block and a new directory are not in use, a new thread gets the free id, threads are
      added to listed processes, and a dispatch ends. */
  ghost predicate Can(w: World, op: Op) {
    match op
    case Create(a, dir, t) =>
      && a !in w.store.blocks && dir !in w.store.dirs
      && t.parent == a && t.tid == FreeTid(w.queue) && t.kernelESP != 0 && !t.Terminated()
    case AddThread(t, _) =>
      t.parent in w.listed && t.tid == FreeTid(w.queue) && t.kernelESP != 0 && !t.Terminated()
    case TerminateById(id, dir) =>
      && (forall a :: a in w.listed ==> a in w.store.blocks)
      && var i := FindProcess(w.store, w.listed, id);
         i < |w.listed| ==> HasRunnable(TerminateAll(w.queue, w.store.blocks[w.listed[i]].tids))
    case DispatchNow(dir) => HasRunnable(w.queue)
    case Touch(i, t) =>
      && i < |w.queue| && SameShape(w.queue, w.queue[i := t])
      && t.Terminated() == w.queue[i].Terminated()
  }

  ghost function AfterDispatch(w: World, dir: nat): World
    requires Accounted(w.store, w.queue) && HasRunnable(w.queue)
  {
    var o := DispatchOutcome(w.queue, w.store, dir);
    w.(queue := o.queue, store := o.store)
  }

  /** terminateProcessById up to its final dispatch. */
  function AfterTermination(w: World, i: nat): World
    requires i < |w.listed| && w.listed[i] in w.store.blocks
  {
    w.(queue := TerminateAll(w.queue, w.store.blocks[w.listed[i]].tids),
       listed := w.listed[..i] + w.listed[i + 1..])
  }

  // ---------------------------------------------------------------- the invariant

  /** A listed process has its own id and no terminated thread, and its thread list names its
      queue entries; the entries of all other processes are terminated. */
  ghost predicate ListsAgree(w: World) {
    && (forall a :: a in w.listed ==> a in w.store.blocks)
    && (forall i, j :: 0 <= i < j < |w.listed| ==>
          w.listed[i] != w.listed[j] && w.store.blocks[w.listed[i]].id != w.store.blocks[w.listed[j]].id)
    && (forall t :: t in w.queue && t.parent !in w.listed ==> t.Terminated())
    && (forall t :: t in w.queue && t.parent in w.listed ==>
          !t.Terminated() && t.tid in w.store.blocks[t.parent].tids)
    && (forall a, tid :: a in w.listed && tid in w.store.blocks[a].tids ==> HasThread(w.queue, a, tid))
  }

  ghost predicate HasThread(q: Queue, a: nat, tid: int) {
    exists t :: t in q && t.parent == a && t.tid == tid
  }

  /** Every block and every directory ever created is in use or has been freed once. */
  ghost predicate Ledger(w: World) {
    && multiset(w.created) == multiset(w.store.freedBlocks) + multiset(w.store.blocks.Keys)
    && multiset(w.createdDirs) == multiset(w.store.freedDirs) + multiset(w.store.dirs)
  }

  ghost predicate WorldInv(w: World) {
    DistinctTids(w.queue) && Accounted(w.store, w.queue) && ListsAgree(w) && Ledger(w)
  }

  // ---------------------------------------------------------------- the operations keep it

  lemma {:induction false} TerminateAllEffect(q: Queue, tids: seq<int>)
    requires DistinctTids(q)
    ensures var r := TerminateAll(q, tids);
            && SameShape(q, r)
            && forall i :: 0 <= i < |q| ==>
                 if q[i].tid in tids then r[i].Terminated()
                 else r[i] == q[i]
    ensures forall i :: 0 <= i < |q| && q[i].Terminated() ==> TerminateAll(q, tids)[i].Terminated()
    decreases |tids|
  {
    if tids != [] {
      var m := SetById(q, tids[0], THREAD_TERMINATE);
      TerminateOneEffect(q, tids[0]);
      ShapeKeepsTids(q, m);
      TerminateAllEffect(m, tids[1..]);
      assert tids == [tids[0]] + tids[1..];
    }
  }

  lemma {:induction false} TerminateOneEffect(q: Queue, tid: int)
    requires DistinctTids(q)
    ensures var r := SetById(q, tid, THREAD_TERMINATE);
            && SameShape(q, r)
            && forall i :: 0 <= i < |q| ==> if q[i].tid == tid then r[i].Terminated() else r[i] == q[i]
    ensures forall i :: 0 <= i < |q| && q[i].Terminated() ==> SetById(q, tid, THREAD_TERMINATE)[i].Terminated()
  {
    if q != [] {
      assert (q[0].state | THREAD_TERMINATE) & THREAD_TERMINATE != 0;
      if q[0].tid != tid {
        TerminateOneEffect(q[1..], tid);
      }
    }
  }

  lemma ShapeKeepsThread(q: Queue, r: Queue, a: nat, tid: int)
    requires SameShape(q, r) && HasThread(q, a, tid)
    ensures HasThread(r, a, tid)
  {
    var t :| t in q && t.parent == a && t.tid == tid;
    var i :| 0 <= i < |q| && q[i] == t;
    assert r[i] in r;
  }

  /** Terminating a process marks its queue entries and nobody else's. */
  lemma TerminationMarksItsThreads(w: World, i: nat)
    requires WorldInv(w) && i < |w.listed|
    ensures var r := AfterTermination(w, i).queue;
            && SameShape(w.queue, r)
            && forall j :: 0 <= j < |r| ==>
                 if w.queue[j].parent == w.listed[i] then r[j].Terminated() else r[j] == w.queue[j]
  {
    var a := w.listed[i];
    var tids := w.store.blocks[a].tids;
    TerminateAllEffect(w.queue, tids);
    forall j | 0 <= j < |w.queue| ensures w.queue[j].tid in tids <==> w.queue[j].parent == a {
      assert w.queue[j] in w.queue;
      if w.queue[j].tid in tids {
        assert HasThread(w.queue, a, w.queue[j].tid);
        var t :| t in w.queue && t.parent == a && t.tid == w.queue[j].tid;
        var k :| 0 <= k < |w.queue| && w.queue[k] == t;
        assert k == j;
      }
    }
  }

  lemma Unlisted(w: World, i: nat)
    requires WorldInv(w) && i < |w.listed|
    ensures forall b :: b in AfterTermination(w, i).listed <==> b in w.listed && b != w.listed[i]
  {
    var l := AfterTermination(w, i).listed;
    assert w.listed == w.listed[..i] + [w.listed[i]] + w.listed[i + 1..];
    forall j | 0 <= j < |w.listed| && j != i ensures w.listed[j] in l && w.listed[j] != w.listed[i] {
      assert w.listed[j] == l[if j < i then j else j - 1];
    }
  }

  lemma TerminatedListsAgree(w: World, i: nat)
    requires WorldInv(w) && i < |w.listed|
    ensures ListsAgree(AfterTermination(w, i))
  {
    var v := AfterTermination(w, i);
    TerminationMarksItsThreads(w, i);
    Unlisted(w, i);
    forall t | t in v.queue
      ensures t.parent !in v.listed ==> t.Terminated()
      ensures t.parent in v.listed ==> !t.Terminated() && t.tid in v.store.blocks[t.parent].tids
    {
      var j :| 0 <= j < |v.queue| && v.queue[j] == t;
      assert w.queue[j] in w.queue;
    }
    forall b, tid | b in v.listed && tid in v.store.blocks[b].tids ensures HasThread(v.queue, b, tid) {
      ShapeKeepsThread(w.queue, v.queue, b, tid);
    }
  }

  lemma TerminatedKeepsInv(w: World, i: nat)
    requires WorldInv(w) && i < |w.listed|
    ensures WorldInv(AfterTermination(w, i))
  {
    var v := AfterTermination(w, i);
    TerminationMarksItsThreads(w, i);
    ShapeKeepsTids(w.queue, v.queue);
    ShapeKeepsAccounts(w.store, w.queue, v.queue);
    TerminatedListsAgree(w, i);
  }

  /** Reaping threads touches the blocks of their processes only. */
  lemma {:induction false} ReapAllFrame(s: Store, ts: Queue, a: nat)
    requires ChargedAll(s, ts)
    requires a in s.blocks && forall t :: t in ts ==> t.parent != a
    ensures a in ReapAll(s, ts).blocks && ReapAll(s, ts).blocks[a] == s.blocks[a]
    decreases |ts|
  {
    if ts != [] {
      assert ts == [ts[0]] + ts[1..];
      ReapAllFrame(Reap(s, ts[0]), ts[1..], a);
    }
  }

  ghost predicate Balanced(s: Store, created: multiset<nat>, createdDirs: multiset<nat>) {
    && created == multiset(s.freedBlocks) + multiset(s.blocks.Keys)
    && createdDirs == multiset(s.freedDirs) + multiset(s.dirs)
  }

  lemma {:induction false} ReapAllBalanced(s: Store, ts: Queue, created: multiset<nat>, createdDirs: multiset<nat>)
    requires ChargedAll(s, ts) && Balanced(s, created, createdDirs)
    ensures Balanced(ReapAll(s, ts), created, createdDirs)
    decreases |ts|
  {
    if ts != [] {
      var t := ts[0];
      var r := Reap(s, t);
      if r.freedBlocks != s.freedBlocks {
        assert r.blocks.Keys == s.blocks.Keys - {t.parent};
      } else {
        assert r.blocks.Keys == s.blocks.Keys;
      }
      ReapAllBalanced(r, ts[1..], created, createdDirs);
    }
  }

  lemma ListsAgreeAfter(w: World, v: World)
    requires ListsAgree(w) && v.listed == w.listed
    requires forall t :: t in v.queue ==> t in w.queue
    requires forall t :: t in w.queue && !t.Terminated() ==> t in v.queue
    requires forall a :: a in w.listed ==> a in v.store.blocks && v.store.blocks[a] == w.store.blocks[a]
    ensures ListsAgree(v)
  {
    forall a, tid | a in v.listed && tid in v.store.blocks[a].tids ensures HasThread(v.queue, a, tid) {
      assert HasThread(w.queue, a, tid);
      var t :| t in w.queue && t.parent == a && t.tid == tid;
      assert t in v.queue;
    }
  }

  lemma DispatchedThreads(q: Queue, own: set<nat>)
    requires HasRunnable(q)
    ensures forall t :: t in Dispatch(q, own).queue ==> t in q
    ensures forall t :: t in Dispatch(q, own).reaped ==> t in q && t.Terminated()
    ensures forall t :: t in q && !t.Terminated() ==> t in Dispatch(q, own).queue
  {
    DispatchKeepsThreads(q, own);
    var d := Dispatch(q, own);
    forall t | t in d.queue || t in d.reaped ensures t in q {
      assert t in multiset(d.queue) || t in multiset(d.reaped);
      assert t in multiset(q);
    }
    forall t | t in q && !t.Terminated() ensures t in d.queue {
      assert t in multiset(q);
      assert t !in d.reaped;
      assert t in multiset(d.queue);
    }
  }

  lemma DispatchedKeepsInv(w: World, dir: nat)
    requires WorldInv(w) && HasRunnable(w.queue)
    ensures WorldInv(AfterDispatch(w, dir))
  {
    var own := Owners(w.store, dir);
    var d := Dispatch(w.queue, own);
    var v := AfterDispatch(w, dir);
    DispatchAccounted(w.store, w.queue, dir);
    DispatchKeepsDistinct(w.queue, own);
    ReapAllBalanced(w.store, d.reaped, multiset(w.created), multiset(w.createdDirs));
    DispatchedThreads(w.queue, own);
    forall a | a in w.listed ensures a in v.store.blocks && v.store.blocks[a] == w.store.blocks[a] {
      ReapAllFrame(w.store, d.reaped, a);
    }
    ListsAgreeAfter(w, v);
  }

  function AfterCreate(w: World, a: nat, dir: nat, t: Thread): World
    requires forall b :: b in w.listed ==> b in w.store.blocks
  {
    var s := w.store;
    World(w.queue + [t],
          s.(blocks := s.blocks[a := Proc(FreeId(s, w.listed), dir, 1, [t.tid])], dirs := s.dirs + {dir}),
          w.listed + [a], w.created + [a], w.createdDirs + [dir])
  }

  lemma AppendCounts(q: Queue, t: Thread, b: nat)
    ensures CountParent(q + [t], b) == CountParent(q, b) + (if b == t.parent then 1 else 0)
  {
    CountConcat(q, [t], b);
    assert [t][1..] == [];
    assert CountParent([t], b) == (if t.parent == b then 1 else 0) + CountParent([], b);
  }

  lemma CreatedAccounted(w: World, a: nat, dir: nat, t: Thread)
    requires WorldInv(w) && Can(w, Create(a, dir, t))
    ensures Accounted(AfterCreate(w, a, dir, t).store, AfterCreate(w, a, dir, t).queue)
  {
    var v := AfterCreate(w, a, dir, t);
    forall b | b in v.store.blocks
      ensures v.store.blocks[b].livingThreads == CountParent(v.queue, b) > 0
    {
      AppendCounts(w.queue, t, b);
      CountPositive(w.queue, a);
    }
  }

  lemma CreatedKeepsInv(w: World, a: nat, dir: nat, t: Thread)
    requires WorldInv(w) && Can(w, Create(a, dir, t))
    ensures WorldInv(AfterCreate(w, a, dir, t))
  {
    var v := AfterCreate(w, a, dir, t);
    NewTidDistinct(w.queue, t);
    CreatedAccounted(w, a, dir, t);
    CreatedListsAgree(w, a, dir, t);
    assert v.store.blocks.Keys == w.store.blocks.Keys + {a};
  }

  lemma CreatedListsAgree(w: World, a: nat, dir: nat, t: Thread)
    requires WorldInv(w) && Can(w, Create(a, dir, t))
    ensures ListsAgree(AfterCreate(w, a, dir, t))
  {
    var v := AfterCreate(w, a, dir, t);
    forall u | u in w.queue ensures u.parent != a { assert u.parent in w.store.blocks; }
    forall b, tid | b in v.listed && tid in v.store.blocks[b].tids ensures HasThread(v.queue, b, tid) {
      if b == a {
        assert t in v.queue;
      } else {
        assert HasThread(w.queue, b, tid);
        var u :| u in w.queue && u.parent == b && u.tid == tid;
        assert u in v.queue;
      }
    }
  }

  /** insert_thread_to_proc */
  function ThreadInserted(s: Store, a: nat, tid: int): Store
    requires a in s.blocks
  {
    var p := s.blocks[a];
    s.(blocks := s.blocks[a := p.(livingThreads := p.livingThreads + 1, tids := p.tids + [tid])])
  }

  function AfterAdd(w: World, t: Thread, prioritized: bool): World
    requires t.parent in w.store.blocks
  {
    w.(queue := if prioritized then InsertPrioritized(w.queue, t) else w.queue + [t],
       store := ThreadInserted(w.store, t.parent, t.tid))
  }

  lemma AddedElements(w: World, t: Thread, prioritized: bool)
    requires t.parent in w.store.blocks
    ensures multiset(AfterAdd(w, t, prioritized).queue) == multiset(w.queue + [t])
    ensures forall u :: u in AfterAdd(w, t, prioritized).queue <==> u in w.queue || u == t
  {
    InsertElements(w.queue, t);
    var v := AfterAdd(w, t, prioritized);
    assert multiset(w.queue + [t]) == multiset(w.queue) + multiset{t};
    assert forall u :: u in v.queue <==> u in multiset(v.queue);
    assert forall u :: u in w.queue <==> u in multiset(w.queue);
  }

  lemma AddedAccounted(w: World, t: Thread, prioritized: bool)
    requires WorldInv(w) && Can(w, AddThread(t, prioritized))
    ensures Accounted(AfterAdd(w, t, prioritized).store, AfterAdd(w, t, prioritized).queue)
  {
    var v := AfterAdd(w, t, prioritized);
    AddedElements(w, t, prioritized);
    forall b | b in v.store.blocks
      ensures v.store.blocks[b].livingThreads == CountParent(v.queue, b) > 0
    {
      CountByElements(v.queue, w.queue + [t], b);
      AppendCounts(w.queue, t, b);
    }
  }

  lemma AddedListsAgree(w: World, t: Thread, prioritized: bool)
    requires WorldInv(w) && Can(w, AddThread(t, prioritized))
    ensures ListsAgree(AfterAdd(w, t, prioritized))
  {
    var v := AfterAdd(w, t, prioritized);
    AddedElements(w, t, prioritized);
    forall b, tid | b in v.listed && tid in v.store.blocks[b].tids ensures HasThread(v.queue, b, tid) {
      if b == t.parent && tid == t.tid {
        assert t in v.queue;
      } else {
        assert HasThread(w.queue, b, tid);
        var u :| u in w.queue && u.parent == b && u.tid == tid;
        assert u in v.queue;
      }
    }
  }

  lemma AddedKeepsInv(w: World, t: Thread, prioritized: bool)
    requires WorldInv(w) && Can(w, AddThread(t, prioritized))
    ensures WorldInv(AfterAdd(w, t, prioritized))
  {
    NewTidDistinct(w.queue, t);
    AddedAccounted(w, t, prioritized);
    AddedListsAgree(w, t, prioritized);
    assert AfterAdd(w, t, prioritized).store.blocks.Keys == w.store.blocks.Keys;
  }

  lemma TouchedKeepsInv(w: World, i: nat, t: Thread)
    requires WorldInv(w) && Can(w, Touch(i, t))
    ensures WorldInv(w.(queue := w.queue[i := t]))
  {
    var v := w.(queue := w.queue[i := t]);
    ShapeKeepsTids(w.queue, v.queue);
    ShapeKeepsAccounts(w.store, w.queue, v.queue);
    forall u | u in v.queue
      ensures u.parent !in v.listed ==> u.Terminated()
      ensures u.parent in v.listed ==> !u.Terminated() && u.tid in v.store.blocks[u.parent].tids
    {
      var j :| 0 <= j < |v.queue| && v.queue[j] == u;
      assert w.queue[j] in w.queue;
    }
    forall b, tid | b in v.listed && tid in v.store.blocks[b].tids ensures HasThread(v.queue, b, tid) {
      ShapeKeepsThread(w.queue, v.queue, b, tid);
    }
  }

  // ---------------------------------------------------------------- runs

  ghost function Perform(w: World, op: Op): (v: World)
    requires WorldInv(w) && Can(w, op)
    ensures WorldInv(v)
  {
    match op
    case Create(a, dir, t) => CreatedKeepsInv(w, a, dir, t); AfterCreate(w, a, dir, t)
    case AddThread(t, p) => AddedKeepsInv(w, t, p); AfterAdd(w, t, p)
    case TerminateById(id, dir) =>
      var i := FindProcess(w.store, w.listed, id);
      if i == |w.listed| then w
      else
        TerminatedKeepsInv(w, i);
        DispatchedKeepsInv(AfterTermination(w, i), dir);
        AfterDispatch(AfterTermination(w, i), dir)
    case DispatchNow(dir) => DispatchedKeepsInv(w, dir); AfterDispatch(w, dir)
    case Touch(i, t) => TouchedKeepsInv(w, i, t); w.(queue := w.queue[i := t])
  }

  ghost predicate CanRun(w: World, ops: seq<Op>)
    requires WorldInv(w)
    decreases |ops|
  {
    ops == [] || (Can(w, ops[0]) && CanRun(Perform(w, ops[0]), ops[1..]))
  }

  ghost function RunOps(w: World, ops: seq<Op>): (v: World)
    requires WorldInv(w) && CanRun(w, ops)
    ensures WorldInv(v)
    decreases |ops|
  {
    if ops == [] then w else RunOps(Perform(w, ops[0]), ops[1..])
  }

  ghost function Boot(): (w: World)
    ensures WorldInv(w)
  {
    World([], Store(map[], {}, [], []), [], [], [])
  }

  /** In every reachable state: livingThreads is the number of queue entries of the process; a
      block is in use exactly as long as it has one; and a block or directory that was created
      and is no longer in use has been freed exactly as often as it was created. */
  lemma FreedExactlyOnce(ops: seq<Op>)
    requires CanRun(Boot(), ops)
    ensures var w := RunOps(Boot(), ops);
      && (forall a :: a in w.store.blocks ==> w.store.blocks[a].livingThreads == CountParent(w.queue, a))
      && (forall a :: a in w.store.blocks <==> exists t :: t in w.queue && t.parent == a)
      && (forall a :: multiset(w.created)[a]
            == multiset(w.store.freedBlocks)[a] + if a in w.store.blocks then 1 else 0)
      && (forall d :: multiset(w.createdDirs)[d]
            == multiset(w.store.freedDirs)[d] + if d in w.store.dirs then 1 else 0)
  {
    var w := RunOps(Boot(), ops);
    assert WorldInv(w);
    forall a | a in w.store.blocks ensures exists t :: t in w.queue && t.parent == a {
      CountPositive(w.queue, a);
    }
  }
}
