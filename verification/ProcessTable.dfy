/** The process list beside the scheduler: creation, further threads and termination. */
module ProcessTable {
  import opened ReadyQueue
  import opened Dispatching
  import opened SchedulerRuns
  import opened Reaping
  import opened ProcessRuns
  import Sched = Scheduler

  /** The store of a new process before and after its main thread is counted. */
  lemma CreatedStore(w: World, a: nat, dir: nat, t: Thread)
    requires forall b :: b in w.listed ==> b in w.store.blocks
    ensures var p := Proc(FreeId(w.store, w.listed), dir, 0, []);
            var s := w.store.(blocks := w.store.blocks[a := p], dirs := w.store.dirs + {dir});
            AfterCreate(w, a, dir, t).store == ThreadInserted(s, a, t.tid)
  {
    var p, q := Proc(FreeId(w.store, w.listed), dir, 0, []), Proc(FreeId(w.store, w.listed), dir, 1, [t.tid]);
    assert [] + [t.tid] == [t.tid];
    assert w.store.blocks[a := p][a := q] == w.store.blocks[a := q];
  }

  /** Terminating a process that is found, in one piece. */
  lemma TerminationReady(w: World, id: int, dir: nat, i: nat)
    requires WorldInv(w) && Can(w, TerminateById(id, dir))
    requires i == FindProcess(w.store, w.listed, id) < |w.listed|
    ensures var v := AfterTermination(w, i);
            && HasRunnable(v.queue) && Accounted(v.store, v.queue)
            && var o := DispatchOutcome(v.queue, v.store, dir);
               Perform(w, TerminateById(id, dir)) == v.(queue := o.queue, store := o.store)
  {
    TerminatedKeepsInv(w, i);
  }

  class ProcessTable {
    const scheduler: Sched.Scheduler
    var processList: seq<nat>      // addresses of the process blocks, in list order
    ghost var created: seq<nat>
    ghost var createdDirs: seq<nat>

    ghost function State(): World
      reads this, scheduler
    {
      World(scheduler.contents, scheduler.store, processList, created, createdDirs)
    }

    constructor ()
      ensures scheduler.Valid() && State() == Boot() && fresh(scheduler)
    {
      scheduler := new Sched.Scheduler();
      processList, created, createdDirs := [], [], [];
      new;
      assert State() == Boot();
    }

    /** getProcessByID and the search of removeProcessFromList, as an index of the list. */
    method FindById(id: int) returns (i: nat)
      requires scheduler.Valid() && forall a :: a in processList ==> a in scheduler.store.blocks
      ensures i == FindProcess(scheduler.store, processList, id)
    {
      i := 0;
      while i < |processList| && scheduler.store.blocks[processList[i]].id != id
        invariant i <= |processList|
        invariant FindProcess(scheduler.store, processList, id)
               == i + FindProcess(scheduler.store, processList[i..], id)
      {
        assert processList[i..][1..] == processList[i + 1..];
        i := i + 1;
      }
    }

    /** The walk over the thread list of a terminated process. */
    method TerminateThreads(tids: seq<int>, ghost frame: set<Sched.QueueEntry>)
      requires scheduler.Valid() && forall e :: e in scheduler.entries ==> e in frame
      modifies scheduler`currentTask, scheduler`contents, frame`thread
      ensures scheduler.Valid() && scheduler.contents == TerminateAll(old(scheduler.contents), tids)
      ensures scheduler.currentTask == old(scheduler.currentTask)
    {
      var rest := tids;
      while rest != []
        invariant scheduler.Valid() && scheduler.currentTask == old(scheduler.currentTask)
        invariant TerminateAll(scheduler.contents, rest) == TerminateAll(old(scheduler.contents), tids)
        decreases |rest|
      {
        scheduler.SetStateById(rest[0], THREAD_TERMINATE, frame);
        rest := rest[1..];
      }
    }

    /** terminateProcessById, once the process is found: everything before the last dispatch. */
    method MarkTerminated(i: nat, ghost v: World)
      requires scheduler.Valid() && i < |processList| && processList[i] in scheduler.store.blocks
      requires v == AfterTermination(State(), i)
      modifies this`processList, scheduler`currentTask, scheduler`contents, scheduler.entries`thread
      ensures scheduler.Valid() && State() == v
    {
      hide SetById;
      var tids := scheduler.store.blocks[processList[i]].tids;
      processList := processList[..i] + processList[i + 1..];
      scheduler.DisableScheduling();
      TerminateThreads(tids, set e | e in scheduler.entries);
      scheduler.EnableScheduling();
    }

    /** schedule, from state `v`. */
    method Schedule(ghost v: World)
      requires scheduler.Valid() && State() == v && HasRunnable(v.queue) && Accounted(v.store, v.queue)
      modifies scheduler, scheduler.entries
      ensures scheduler.Valid()
      ensures var o := DispatchOutcome(v.queue, v.store, old(scheduler.loadedDirectory));
              State() == v.(queue := o.queue, store := o.store)
    {
      scheduler.SchedulerDispatch();
    }

    /** terminateProcessById */
    method TerminateProcessById(id: int)
      requires scheduler.Valid() && WorldInv(State()) && Can(State(), TerminateById(id, scheduler.loadedDirectory))
      modifies this`processList, scheduler, scheduler.entries
      ensures scheduler.Valid()
      ensures State() == Perform(old(State()), TerminateById(id, old(scheduler.loadedDirectory)))
    {
      hide HasRunnable, InsertPrioritized, Accounted, AfterAdd, SameShape, DistinctTids, DirsDistinct, SetById,
        TerminateAll;
      var i := FindById(id);
      if i < |processList| {
        ghost var v := AfterTermination(State(), i);
        TerminationReady(State(), id, scheduler.loadedDirectory, i);
        MarkTerminated(i, v);
        Schedule(v);
      }
    }

    /** The new block and its directory are in use. */
    method AddBlock(a: nat, p: Proc, ghost s: Store)
      requires scheduler.Valid()
      requires s == scheduler.store.(blocks := scheduler.store.blocks[a := p],
                                     dirs := scheduler.store.dirs + {p.pageDirectory})
      modifies scheduler`store
      ensures scheduler.Valid() && scheduler.store == s
    {
      scheduler.store := scheduler.store.(blocks := scheduler.store.blocks[a := p],
                                          dirs := scheduler.store.dirs + {p.pageDirectory});
    }

    /** The bookkeeping of createProcess, once its address space `dir` and block `a` exist. */
    method CreateProcess(a: nat, dir: nat, t: Thread)
      requires scheduler.Valid() && forall b :: b in processList ==> b in scheduler.store.blocks
      modifies this, scheduler, scheduler.entries
      ensures scheduler.Valid() && State() == AfterCreate(old(State()), a, dir, t)
    {
      hide Sched.ListOf;
      ghost var w := State();
      var id := GetFreeId();
      ghost var s := w.store.(blocks := w.store.blocks[a := Proc(id, dir, 0, [])], dirs := w.store.dirs + {dir});
      AddBlock(a, Proc(id, dir, 0, []), s);
      processList := processList + [a];
      scheduler.QueueInsert(t);
      InsertThreadToProc(a, t.tid);
      CreatedStore(w, a, dir, t);
      created, createdDirs := created + [a], createdDirs + [dir];
      assert State() == AfterCreate(w, a, dir, t);
    }

    /** insert_thread_to_proc */
    method InsertThreadToProc(a: nat, tid: int)
      requires a in scheduler.store.blocks
      modifies scheduler`store
      ensures scheduler.store == ThreadInserted(old(scheduler.store), a, tid)
      ensures old(scheduler.Valid()) ==> scheduler.Valid()
    {
      var p := scheduler.store.blocks[a];
      p := p.(tids := p.tids + [tid]);
      p := p.(livingThreads := p.livingThreads + 1);
      scheduler.store := scheduler.store.(blocks := scheduler.store.blocks[a := p]);
    }

    /** getFreeID */
    method GetFreeId() returns (id: int)
      requires scheduler.Valid() && forall a :: a in processList ==> a in scheduler.store.blocks
      ensures id == FreeId(scheduler.store, processList)
    {
      id := 1;
      var i := 0;
      while i < |processList|
        invariant i <= |processList|
        invariant FreeId(scheduler.store, processList) == FreeId(scheduler.store, processList[i..], id)
      {
        assert processList[i..][1..] == processList[i + 1..];
        var p := scheduler.store.blocks[processList[i]];
        if p.id >= id {
          id := p.id + 1;
        }
        i := i + 1;
      }
    }

    /** A further thread of the running process, as fork adds it. */
    method Fork(t: Thread)
      requires scheduler.Valid() && t.parent in scheduler.store.blocks
      modifies this, scheduler, scheduler.entries
      ensures scheduler.Valid() && State() == AfterAdd(old(State()), t, true)
    {
      hide Sched.ListOf;
      ghost var w := State();
      InsertThreadToProc(t.parent, t.tid);
      scheduler.QueueInsertPrioritized(t);
      assert State() == AfterAdd(w, t, true);
    }
  }
}
