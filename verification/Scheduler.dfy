/** The ready queue as the kernel keeps it: a linked list that every call relinks in place. */
module Scheduler {
  import opened ReadyQueue
  import opened Dispatching
  import opened SchedulerRuns
  import opened Reaping

  class QueueEntry {
    var thread: Thread
    var next: QueueEntry?

    constructor (t: Thread)
      ensures thread == t && next == null
    {
      thread := t;
      next := null;
    }
  }

  function EntryAt(es: seq<QueueEntry>, i: nat): QueueEntry? {
    if i < |es| then es[i] else null
  }

  ghost predicate Distinct(es: seq<QueueEntry>) {
    forall i, j :: 0 <= i < j < |es| ==> es[i] != es[j]
  }

  /** `es` are the entries of the list that starts at `head`, and hold the threads `q`. */
  ghost predicate ListOf(head: QueueEntry?, es: seq<QueueEntry>, q: Queue)
    reads es
  {
    && |q| == |es|
    && Distinct(es)
    && head == EntryAt(es, 0)
    && (forall i :: 0 <= i < |es| ==> es[i].next == EntryAt(es, i + 1))
    && (forall i :: 0 <= i < |es| ==> es[i].thread == q[i])
  }

  /** `s` with `x` right behind its element `i`. */
  function Splice<T>(s: seq<T>, i: nat, x: T): (r: seq<T>)
    requires i < |s|
    ensures |r| == |s| + 1
    ensures forall k :: 0 <= k <= i ==> r[k] == s[k]
    ensures r[i + 1] == x
    ensures forall k :: i + 1 < k < |r| ==> r[k] == s[k - 1]
  {
    s[..i + 1] + [x] + s[i + 1..]
  }

  /** Where insertion by priority stops. */
  ghost predicate StopsAt(q: Queue, t: Thread, i: nat) {
    && i < |q|
    && (forall j :: 0 <= j < i ==> q[j].priority <= t.priority)
    && (i == |q| - 1 || q[i].priority > t.priority)
  }

  lemma {:induction false} InsertionAt(q: Queue, t: Thread, i: nat)
    requires StopsAt(q, t, i)
    ensures InsertPrioritized(q, t) == Splice(q, i, t)
  {
    if i > 0 {
      InsertionAt(q[1..], t, i - 1);
      assert Splice(q, i, t) == [q[0]] + Splice(q[1..], i - 1, t);
    }
  }

  lemma {:induction false} ReapAllSnoc(s: Store, ts: Queue, t: Thread)
    requires ChargedAll(s, ts) && Charged(ReapAll(s, ts), t)
    ensures ChargedAll(s, ts + [t]) && ReapAll(s, ts + [t]) == Reap(ReapAll(s, ts), t)
    decreases |ts|
  {
    if ts == [] {
      assert (ts + [t])[1..] == [];
    } else {
      assert (ts + [t])[1..] == ts[1..] + [t];
      ReapAllSnoc(Reap(s, ts[0]), ts[1..], t);
    }
  }

  /** The process blocks in the middle of a dispatch that has reaped `gone` so far. */
  ghost predicate Released(s0: Store, gone: Queue, own: set<nat>, dir: nat, s: Store, q: Queue) {
    && ChargedAll(s0, gone) && s == ReapAll(s0, gone)
    && Accounted(s, q)
    && forall a :: a in s.blocks ==> (a in own <==> s.blocks[a].pageDirectory == dir)
  }

  /** After reaping `gone`, dispatching `q` still comes out at `d`. */
  ghost predicate Awaits(d: Dispatched, gone: Queue, q: Queue, own: set<nat>)
    requires HasRunnable(q)
  {
    d == Dispatched(Dispatch(q, own).queue, gone + Dispatch(q, own).reaped)
  }

  lemma PassAwaits(d: Dispatched, gone: Queue, q: Queue, own: set<nat>)
    requires HasRunnable(q) && Awaits(d, gone, q, own)
    ensures var p := LoopPass(q, own);
            if p.done then d == Dispatched(p.queue, gone + p.reaped)
            else && HasRunnable(p.queue)
                 && (|p.queue| < |q| || (|p.queue| == |q| && Rank(p.queue) < Rank(q)))
                 && Awaits(d, gone + p.reaped, p.queue, own)
  {
    PassDecreases(q, own);
    var p := LoopPass(q, own);
    if !p.done {
      var rest := Dispatch(p.queue, own).reaped;
      assert gone + (p.reaped + rest) == gone + p.reaped + rest;
    }
  }

  lemma RotateAccounted(s: Store, q: Queue)
    requires Accounted(s, q) && q != []
    ensures Accounted(s, Rotate(q))
  {
    var r := Rotate(q);
    RotateElements(q);
    forall a | a in s.blocks ensures CountParent(r, a) == CountParent(q, a) { CountByElements(r, q, a); }
    forall t | t in r ensures t in q { assert t in multiset(r); assert t in multiset(q); }
  }

  lemma PassReleased(s0: Store, gone: Queue, own: set<nat>, dir: nat, s: Store, q: Queue)
    requires Released(s0, gone, own, dir, s, q) && q != []
    ensures Released(s0, gone, own, dir, s, Rotate(q))
    ensures var t := Rotate(q)[0];
            && Charged(s, t)
            && (t.parent in own <==> s.blocks[t.parent].pageDirectory == dir)
            && Released(s0, gone + [t], own, dir, Reap(s, t), Rotate(q)[1..])
  {
    RotateAccounted(s, q);
    var r := Rotate(q);
    assert r == [r[0]] + r[1..];
    ReapOneAccounted(s, r[0], r[1..]);
    ReapAllSnoc(s0, gone, r[0]);
  }

  lemma DispatchEnds(d: Dispatched, gone: Queue, q0: Queue, s0: Store, dir: nat, q: Queue, s: Store)
    requires HasRunnable(q0) && d == Dispatch(q0, Owners(s0, dir)) && d == Dispatched(q, gone)
    requires Released(s0, gone, Owners(s0, dir), dir, s, q)
    ensures Accounted(s0, q0) ==> Outcome(q, s) == DispatchOutcome(q0, s0, dir)
  {
  }

  class Scheduler {
    var readyQueue: QueueEntry?
    var currentTask: QueueEntry?
    var store: Store          // process blocks and page directories in use
    var loadedDirectory: nat  // vmmngr_get_directory
    ghost var entries: seq<QueueEntry>
    ghost var contents: Queue

    ghost predicate Linked()
      reads this, entries
    {
      ListOf(readyQueue, entries, contents)
    }

    /** The list is well formed and the current task is null or its head. */
    ghost predicate Valid()
      reads this, entries
    {
      Linked() && (currentTask == null || currentTask == EntryAt(entries, 0))
    }

    constructor ()
      ensures Valid() && contents == [] && currentTask == null && store == Store(map[], {}, [], [])
    {
      store := Store(map[], {}, [], []);
      loadedDirectory := 0;
      readyQueue := null;
      currentTask := null;
      entries := [];
      contents := [];
    }

    method DisableScheduling()
      requires Valid()
      modifies this`currentTask
      ensures Valid() && currentTask == null
    {
      currentTask := null;
    }

    method EnableScheduling()
      requires Valid()
      modifies this`currentTask
      ensures Valid() && currentTask == readyQueue
    {
      currentTask := readyQueue;
    }

    /** The two stores that put `n` behind the entry `tmp`. */
    method LinkAfter(tmp: QueueEntry, n: QueueEntry, ghost i: nat)
      requires Linked() && i < |entries| && entries[i] == tmp && n !in entries
      modifies this`entries, this`contents, tmp`next, n`next
      ensures Linked()
      ensures entries == Splice(old(entries), i, n)
      ensures contents == Splice(old(contents), i, n.thread)
    {
      n.next := tmp.next;
      tmp.next := n;
      entries := Splice(entries, i, n);
      contents := Splice(contents, i, n.thread);
    }

    /** The store that makes `n` the only entry. */
    method LinkFirst(n: QueueEntry)
      requires Linked() && readyQueue == null && n.next == null
      modifies this`readyQueue, this`entries, this`contents
      ensures old(entries) == [] && old(contents) == []
      ensures Linked() && readyQueue == n && entries == [n] && contents == [n.thread]
    {
      readyQueue := n;
      entries, contents := [n], [n.thread];
    }

    /** The walk of queue_insert. */
    method FindLast() returns (tmp: QueueEntry, ghost i: nat)
      requires Linked() && readyQueue != null
      ensures |entries| > 0 && i == |entries| - 1 && tmp == entries[i]
    {
      tmp := readyQueue;
      i := 0;
      while tmp.next != null
        invariant i < |entries| && tmp == entries[i]
        decreases |entries| - i
      {
        tmp := tmp.next;
        i := i + 1;
      }
    }

    /** The walk of queue_insert_prioritized_queueEntry. */
    method FindSlot(t: Thread) returns (tmp: QueueEntry, ghost i: nat)
      requires Linked() && readyQueue != null
      ensures StopsAt(contents, t, i) && |entries| == |contents| && tmp == entries[i]
    {
      tmp := readyQueue;
      i := 0;
      while tmp.next != null && tmp.thread.priority <= t.priority
        invariant i < |entries| && tmp == entries[i]
        invariant forall j :: 0 <= j < i ==> contents[j].priority <= t.priority
        decreases |entries| - i
      {
        tmp := tmp.next;
        i := i + 1;
      }
    }

    /** queue_insert: append at the tail. */
    method QueueInsert(t: Thread)
      requires Valid()
      modifies this`currentTask, this`readyQueue, this`entries, this`contents, entries`next
      ensures Valid() && contents == old(contents) + [t]
      ensures currentTask == old(currentTask)
      ensures forall e :: e in entries ==> e in old(entries) || fresh(e)
    {
      var schedulingEnabled := currentTask != null;
      if schedulingEnabled { DisableScheduling(); }
      var n := new QueueEntry(t);
      if readyQueue != null {
        var tmp, i := FindLast();
        LinkAfter(tmp, n, i);
      } else {
        LinkFirst(n);
      }
      if schedulingEnabled { EnableScheduling(); }
    }

    /** queue_insert_prioritized_queueEntry: relink an entry that is not in the list. */
    method QueueInsertPrioritizedEntry(n: QueueEntry)
      requires Linked() && n !in entries
      modifies this`readyQueue, this`entries, this`contents, entries`next, n`next
      ensures Linked() && contents == InsertPrioritized(old(contents), n.thread)
      ensures old(readyQueue) != null ==> readyQueue == old(readyQueue)
      ensures forall e :: e in entries ==> e in old(entries) || e == n
    {
      hide Linked;
      n.next := null;
      if readyQueue != null {
        var tmp, i := FindSlot(n.thread);
        InsertionAt(contents, n.thread, i);
        hide InsertPrioritized;
        LinkAfter(tmp, n, i);
      } else {
        LinkFirst(n);
      }
    }

    /** queue_remove on a queue that is not empty. */
    method QueueRemove() returns (t: QueueEntry)
      requires Linked() && readyQueue != null
      modifies this`readyQueue, this`entries, this`contents
      ensures Linked() && t !in entries
      ensures old(entries) != [] && t == old(entries)[0] && entries == old(entries)[1..]
      ensures old(contents) != [] && t.thread == old(contents)[0] && contents == old(contents)[1..]
    {
      t := readyQueue;
      readyQueue := readyQueue.next;
      entries, contents := entries[1..], contents[1..];
    }

    /** queue_delete_first */
    method QueueDeleteFirst()
      requires Linked()
      modifies this`readyQueue, this`entries, this`contents
      ensures Linked()
      ensures old(entries) == [] ==> entries == [] && contents == []
      ensures old(entries) != [] ==> entries == old(entries)[1..] && contents == old(contents)[1..]
    {
      if readyQueue != null {
        readyQueue := readyQueue.next;
        entries, contents := entries[1..], contents[1..];
      }
    }

    /** The store that each dispatch pass makes to _currentTask. */
    method MakeHeadCurrent()
      requires Linked() && contents != []
      modifies this`currentTask
      ensures Valid() && currentTask == readyQueue != null && currentTask.thread == contents[0]
    {
      currentTask := readyQueue;
    }

    /** The head goes round: what each dispatch pass begins with. */
    method RotateHead()
      requires Linked() && readyQueue != null
      modifies this`readyQueue, this`entries, this`contents, this`currentTask, entries`next
      ensures Valid() && currentTask == readyQueue != null
      ensures old(contents) != [] && contents == Rotate(old(contents))
      ensures currentTask.thread == contents[0]
      ensures forall e :: e in entries ==> e in old(entries)
    {
      hide Linked, InsertPrioritized;
      var tmp := QueueRemove();
      assert forall e :: e in entries ==> e in old(entries);
      QueueInsertPrioritizedEntry(tmp);
      MakeHeadCurrent();
    }

    /** A reaped thread's process counts one thread less; the last one takes the directory and the
        block with it. */
    method ReleaseThread(t: Thread)
      requires Charged(store, t)
      modifies this`store
      ensures store == Reap(old(store), t)
    {
      var parent := t.parent;
      if t.kernelESP != 0 {
        var p := store.blocks[parent];
        store := store.(blocks := store.blocks[parent := p.(livingThreads := p.livingThreads - 1)]);
      }
      if store.blocks[parent].livingThreads == 0 {
        var dir := store.blocks[parent].pageDirectory;
        assert store.blocks - {parent} == old(store).blocks - {parent};
        store := Store(store.blocks - {parent}, store.dirs - {dir},
                       store.freedBlocks + [parent], store.freedDirs + [dir]);
      }
    }

    /** The body of the dispatch loop for a terminated head that is not kept. */
    method ReapHead()
      requires Valid() && currentTask != null && contents != [] && Charged(store, contents[0])
      modifies this`store, this`readyQueue, this`entries, this`contents
      ensures Linked() && contents == old(contents)[1..] && entries == old(entries)[1..]
      ensures store == Reap(old(store), old(contents)[0])
    {
      ReleaseThread(currentTask.thread);
      QueueDeleteFirst();
    }

    /** One pass of the dispatch loop; `again` is the loop condition. */
    method DispatchPass(ghost store0: Store, ghost gone: Queue, ghost own: set<nat>, ghost frame: set<QueueEntry>)
      returns (again: bool)
      requires Linked() && contents != [] && forall e :: e in entries ==> e in frame
      requires Released(store0, gone, own, loadedDirectory, store, contents)
      modifies this`store, this`readyQueue, this`entries, this`contents, this`currentTask, frame`next
      ensures Linked() && contents == LoopPass(old(contents), own).queue
      ensures Released(store0, gone + LoopPass(old(contents), own).reaped, own, loadedDirectory, store, contents)
      ensures again == !LoopPass(old(contents), own).done
      ensures !again ==> Valid() && currentTask != null && currentTask.thread.Runnable()
      ensures forall e :: e in entries ==> e in frame
    {
      PassReleased(store0, gone, own, loadedDirectory, store, contents);
      RotateHead();
      assert gone + [] == gone;
      if currentTask.thread.Terminated() {
        if loadedDirectory != store.blocks[currentTask.thread.parent].pageDirectory {
          ReapHead();
        }
        return true;
      }
      again := currentTask.thread.Sleeping() || currentTask.thread.Suspended();
    }

    /** The loop of scheduler_dispatch, which is awaited to come out at `d`. */
    method DispatchLoop(ghost d: Dispatched, ghost own: set<nat>, ghost store0: Store) returns (ghost gone: Queue)
      requires Linked() && HasRunnable(contents) && Awaits(d, [], contents, own)
      requires Released(store0, [], own, loadedDirectory, store, contents)
      modifies this`store, this`readyQueue, this`entries, this`contents, this`currentTask, entries`next
      ensures Valid() && currentTask != null && currentTask.thread.Runnable()
      ensures d == Dispatched(contents, gone) && Released(store0, gone, own, loadedDirectory, store, contents)
      ensures forall e :: e in entries ==> e in old(entries)
    {
      ghost var frame := set e | e in entries;
      gone := [];
      while true
        invariant Linked() && HasRunnable(contents)
        invariant forall e :: e in entries ==> e in frame
        invariant Released(store0, gone, own, loadedDirectory, store, contents)
        invariant Awaits(d, gone, contents, own)
        decreases |contents|, Rank(contents)
      {
        PassAwaits(d, gone, contents, own);
        ghost var reaped := LoopPass(contents, own).reaped;
        var again := DispatchPass(store0, gone, own, frame);
        gone := gone + reaped;
        if !again { return; }
      }
    }

    /** scheduler_dispatch: rotate and reap until the head can run. */
    method SchedulerDispatch()
      requires Valid() && HasRunnable(contents) && Accounted(store, contents)
      modifies this`store, this`readyQueue, this`entries, this`contents, this`currentTask, entries`next
      ensures Valid() && currentTask != null && currentTask.thread.Runnable()
      ensures Outcome(contents, store) == DispatchOutcome(old(contents), old(store), loadedDirectory)
      ensures forall e :: e in entries ==> e in old(entries)
    {
      ghost var own := Owners(store, loadedDirectory);
      ghost var d := Dispatch(contents, own);
      assert [] + d.reaped == d.reaped;
      ghost var gone := DispatchLoop(d, own, store);
      DispatchEnds(d, gone, old(contents), old(store), loadedDirectory, contents, store);
    }

    // -------------------------------------------------------------- thread state

    /** A store into the thread of one entry. */
    method UpdateThread(e: QueueEntry, t: Thread, ghost i: nat)
      requires Linked() && i < |entries| && entries[i] == e
      modifies e`thread, this`contents
      ensures Linked() && contents == old(contents)[i := t]
    {
      e.thread := t;
      contents := contents[i := t];
    }

    /** The walk of the functions that look a thread up by its id. */
    method FindByTid(tid: int) returns (tmp: QueueEntry?, ghost i: nat)
      requires Linked()
      ensures i <= |contents| == |entries| && tmp == EntryAt(entries, i)
      ensures forall j :: 0 <= j < i ==> contents[j].tid != tid
      ensures i < |contents| ==> contents[i].tid == tid
    {
      tmp := readyQueue;
      i := 0;
      while tmp != null && tmp.thread.tid != tid
        invariant i <= |entries| && tmp == EntryAt(entries, i)
        invariant forall j :: 0 <= j < i ==> contents[j].tid != tid
        decreases |entries| - i
      {
        tmp := tmp.next;
        i := i + 1;
      }
    }

    method SetStateById(tid: int, flags: bv32, ghost frame: set<QueueEntry>)
      requires Valid() && forall e :: e in entries ==> e in frame
      modifies this`currentTask, this`contents, frame`thread
      ensures Valid() && currentTask == old(currentTask)
      ensures contents == SetById(old(contents), tid, flags)
    {
      var schedulingEnabled := currentTask != null;
      if schedulingEnabled { DisableScheduling(); }
      var tmp, i := FindByTid(tid);
      ByIdAt(contents, tid, flags, i);
      if tmp != null {
        UpdateThread(tmp, tmp.thread.SetState(flags), i);
      }
      if schedulingEnabled { EnableScheduling(); }
    }

    method RemoveStateById(tid: int, flags: bv32)
      requires Valid()
      modifies this`currentTask, this`contents, entries`thread
      ensures Valid() && currentTask == old(currentTask)
      ensures contents == RemoveById(old(contents), tid, flags)
    {
      var schedulingEnabled := currentTask != null;
      if schedulingEnabled { DisableScheduling(); }
      var tmp, i := FindByTid(tid);
      ByIdAt(contents, tid, flags, i);
      if tmp != null {
        UpdateThread(tmp, tmp.thread.RemoveState(flags), i);
      }
      if schedulingEnabled { EnableScheduling(); }
    }

    /** One step of unsuspend_suspended_threads, after the entries before the i-th of `q`. */
    method UnsuspendOne(e: QueueEntry, id: int, ghost parents: set<nat>, ghost q: Queue, ghost i: nat)
      requires Linked() && i < |entries| && entries[i] == e && |q| == |contents|
      requires contents == UnsuspendedTo(q, parents, i)
      requires q[i].parent in store.blocks && (q[i].parent in parents <==> store.blocks[q[i].parent].id == id)
      modifies e`thread, this`contents
      ensures Linked() && contents == UnsuspendedTo(q, parents, i + 1)
    {
      UnsuspendedStep(q, parents, i);
      if store.blocks[e.thread.parent].id == id {
        UpdateThread(e, e.thread.RemoveState(THREAD_SUSPENDED), i);
      }
    }

    method UnsuspendLoop(id: int, ghost parents: set<nat>, ghost frame: set<QueueEntry>)
      requires Linked() && forall e :: e in entries ==> e in frame
      requires forall t :: t in contents ==>
        t.parent in store.blocks && (t.parent in parents <==> store.blocks[t.parent].id == id)
      modifies this`contents, frame`thread
      ensures Linked() && contents == UnsuspendedTo(old(contents), parents, |old(contents)|)
    {
      ghost var q := contents;
      var tmp := readyQueue;
      ghost var i := 0;
      assert contents == UnsuspendedTo(q, parents, 0);
      hide UnsuspendedTo;
      while tmp != null
        invariant Linked() && i <= |entries| == |q| && tmp == EntryAt(entries, i)
        invariant contents == UnsuspendedTo(q, parents, i)
        decreases |entries| - i
      {
        assert q[i] in q;
        UnsuspendOne(tmp, id, parents, q, i);
        tmp := tmp.next;
        i := i + 1;
      }
    }

    /** unsuspend_suspended_threads: every thread of a process with that id. */
    method UnsuspendThreads(id: int)
      requires Valid() && forall t :: t in contents ==> t.parent in store.blocks
      modifies this`currentTask, this`contents, entries`thread
      ensures Valid() && currentTask == old(currentTask)
      ensures contents == Unsuspend(old(contents), set a | a in store.blocks && store.blocks[a].id == id)
    {
      var schedulingEnabled := currentTask != null;
      if schedulingEnabled { DisableScheduling(); }
      ghost var q, parents := contents, set a | a in store.blocks && store.blocks[a].id == id;
      UnsuspendLoop(id, parents, set e | e in entries);
      assert q[..|q|] == q;
      if schedulingEnabled { EnableScheduling(); }
    }

    /** get_free_tid */
    method GetFreeTid() returns (id: int)
      requires Valid()
      ensures id == FreeTid(contents)
    {
      id := 1;
      var tmp := readyQueue;
      ghost var i := 0;
      while tmp != null
        invariant i <= |entries| && tmp == EntryAt(entries, i)
        invariant FreeTid(contents) == FreeTid(contents[i..], id)
        decreases |entries| - i
      {
        assert contents[i..][1..] == contents[i + 1..];
        if tmp.thread.tid >= id {
          id := tmp.thread.tid + 1;
        }
        tmp := tmp.next;
        i := i + 1;
      }
    }

    /** thread_wake by the current thread. */
    method ThreadWake()
      requires Valid() && currentTask != null
      modifies this`contents, entries`thread
      ensures Valid() && old(contents) != [] && contents == old(contents)[0 := Awake(old(contents)[0])]
    {
      currentTask.thread := currentTask.thread.RemoveState(THREAD_BLOCK_SLEEP);
      currentTask.thread := currentTask.thread.(sleepTimeDelta := 0);
      contents := contents[0 := currentTask.thread];
    }

    /** thread_sleep: mark the current thread, then schedule. */
    method ThreadSleep(ms: nat)
      requires Valid() && currentTask != null && contents != []
      requires HasRunnable(contents[0 := Asleep(contents[0], ms)])
      requires Accounted(store, contents[0 := Asleep(contents[0], ms)])
      modifies this`store, this`readyQueue, this`entries, this`contents, this`currentTask, entries
      ensures Valid() && currentTask != null && currentTask.thread.Runnable()
      ensures Outcome(contents, store)
           == DispatchOutcome(old(contents)[0 := Asleep(old(contents)[0], ms)], old(store), loadedDirectory)
    {
      ghost var marked := contents[0 := Asleep(contents[0], ms)];
      currentTask.thread := currentTask.thread.SetState(THREAD_BLOCK_SLEEP);
      currentTask.thread := currentTask.thread.(sleepTimeDelta := ms / (1000 / PHASE));
      contents := marked;
      SchedulerDispatch();
    }

    /** thread_suspend: mark the current thread, then schedule. */
    method ThreadSuspend()
      requires Valid() && currentTask != null && contents != []
      requires HasRunnable(contents[0 := contents[0].SetState(THREAD_SUSPENDED)])
      requires Accounted(store, contents[0 := contents[0].SetState(THREAD_SUSPENDED)])
      modifies this`store, this`readyQueue, this`entries, this`contents, this`currentTask, entries
      ensures Valid() && currentTask != null && currentTask.thread.Runnable()
      ensures Outcome(contents, store)
           == DispatchOutcome(old(contents[0 := contents[0].SetState(THREAD_SUSPENDED)]), old(store), loadedDirectory)
    {
      currentTask.thread := currentTask.thread.SetState(THREAD_SUSPENDED);
      contents := contents[0 := contents[0].SetState(THREAD_SUSPENDED)];
      SchedulerDispatch();
    }

    /** Counting one sleeper down. */
    method CountDownOne(e: QueueEntry, ghost i: nat)
      requires Linked() && i < |entries| && entries[i] == e
      modifies e`thread, this`contents
      ensures Linked() && contents == old(contents)[i := TickDown(old(contents)[i])]
    {
      hide TickDown;
      ghost var t := e.thread;
      TickEntry(e);
      contents := contents[i := TickDown(t)];
    }

    static method TickEntry(e: QueueEntry)
      modifies e`thread
      ensures e.thread == TickDown(old(e.thread))
    {
      ghost var t := e.thread;
      if e.thread.sleepTimeDelta > 0 {
        e.thread := e.thread.(sleepTimeDelta := e.thread.sleepTimeDelta - 1);
        if e.thread.sleepTimeDelta == 0 {
          e.thread := e.thread.RemoveState(THREAD_BLOCK_SLEEP);
          e.thread := e.thread.(sleepTimeDelta := 0);
          assert e.thread == t.(sleepTimeDelta := 0).RemoveState(THREAD_BLOCK_SLEEP).(sleepTimeDelta := 0);
          TickOfLastDelta(t);
        }
      }
    }

    /** The second half of scheduler_tick: count every sleeper down. */
    method CountDown(ghost frame: set<QueueEntry>)
      requires Valid() && forall e :: e in entries ==> e in frame
      modifies this`contents, frame`thread
      ensures Valid() && contents == TickAll(old(contents))
    {
      var tmp := readyQueue;
      ghost var i := 0;
      while tmp != null
        invariant Linked() && i <= |entries| && tmp == EntryAt(entries, i)
        invariant |contents| == |old(contents)|
        invariant forall j :: 0 <= j < i ==> contents[j] == TickDown(old(contents)[j])
        invariant forall j :: i <= j < |contents| ==> contents[j] == old(contents)[j]
        decreases |entries| - i
      {
        CountDownOne(tmp, i);
        tmp := tmp.next;
        i := i + 1;
      }
    }

    method SchedulerTick()
      requires Valid() && HasRunnable(contents) && Accounted(store, contents)
      modifies this`store, this`readyQueue, this`entries, this`contents, this`currentTask, entries
      ensures Valid() && currentTask != null
      ensures contents == TickAll(DispatchOutcome(old(contents), old(store), loadedDirectory).queue)
      ensures store == DispatchOutcome(old(contents), old(store), loadedDirectory).store
    {
      hide Valid, Linked, ListOf, Accounted, ReapAll, EntryAt, DispatchOutcome, TickAll, Dispatch, Rank;
      ghost var frame := set e | e in entries;
      ghost var o := DispatchOutcome(contents, store, loadedDirectory);
      SchedulerDispatch();
      assert contents == o.queue && store == o.store;
      CountDown(frame);
    }

    /** queue_insert_prioritized of a new thread. */
    method QueueInsertPrioritized(t: Thread)
      requires Valid()
      modifies this`readyQueue, this`entries, this`contents, entries`next
      ensures Valid() && contents == InsertPrioritized(old(contents), t)
    {
      var n := new QueueEntry(t);
      QueueInsertPrioritizedEntry(n);
    }
  }

  function UnsuspendedTo(q: Queue, parents: set<nat>, i: nat): (r: Queue)
    requires i <= |q|
    ensures |r| == |q|
  {
    Unsuspend(q[..i], parents) + q[i..]
  }

  lemma UnsuspendedStep(q: Queue, parents: set<nat>, i: nat)
    requires i < |q|
    ensures UnsuspendedTo(q, parents, i)[i] == q[i] && q[i] in q
    ensures UnsuspendedTo(q, parents, i + 1) == UnsuspendedTo(q, parents, i)[i := UnsuspendOf(q[i], parents)]
    ensures UnsuspendedTo(q, parents, |q|) == Unsuspend(q, parents)
  {
    assert q[..|q|] == q;
  }

  lemma TickOfLastDelta(t: Thread)
    requires t.sleepTimeDelta == 1
    ensures t.(sleepTimeDelta := 0).RemoveState(THREAD_BLOCK_SLEEP).(sleepTimeDelta := 0) == TickDown(t)
  {
  }

  lemma {:induction false} ByIdAt(q: Queue, tid: int, flags: bv32, i: nat)
    requires i <= |q|
    requires forall j :: 0 <= j < i ==> q[j].tid != tid
    requires i < |q| ==> q[i].tid == tid
    ensures SetById(q, tid, flags) == if i == |q| then q else q[i := q[i].SetState(flags)]
    ensures RemoveById(q, tid, flags) == if i == |q| then q else q[i := q[i].RemoveState(flags)]
  {
    SetByIdShape(q, tid, flags);
    RemoveByIdShape(q, tid, flags);
    OthersById(q, tid, flags, i);
  }

  lemma {:induction false} OthersById(q: Queue, tid: int, flags: bv32, i: nat)
    requires i <= |q|
    requires forall j :: 0 <= j < i ==> q[j].tid != tid
    requires i < |q| ==> q[i].tid == tid
    ensures forall j :: 0 <= j < |q| && j != i ==> SetById(q, tid, flags)[j] == q[j]
    ensures forall j :: 0 <= j < |q| && j != i ==> RemoveById(q, tid, flags)[j] == q[j]
    ensures i < |q| ==> SetById(q, tid, flags)[i] == q[i].SetState(flags)
    ensures i < |q| ==> RemoveById(q, tid, flags)[i] == q[i].RemoveState(flags)
  {
    if i > 0 {
      OthersById(q[1..], tid, flags, i - 1);
    }
  }
}
