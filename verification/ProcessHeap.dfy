/** A program's heap in place: bitmap words, counter and top, over the break of its process. */
module ProcessHeap {
  import opened Bitmaps
  import opened PageEntries
  import opened PageTables
  import opened Ownership
  import opened AddressSpaces
  import opened BlockHeap
  import opened KernelHeap
  import opened VirtualMemory
  import opened UserHeap

  /** alloc_virt outside the kernel slots finds its table in memory. */
  lemma TableInMemory(m: Machine, dirs: set<nat>, shared: set<nat>, d: nat, va: nat, flags: bv12)
    requires Spaces(m, dirs, shared) && d in dirs && !KernelSlot(Di(va))
    ensures d < |m.mem|
    ensures var (n, ok) := EnsureTable(m, d, Di(va), flags); ok ==> At(n, d, Di(va)).frame < |m.mem|
  {
    assert Live(m, dirs, shared, true, Dir(d));
    EnsureTableEffect(m, dirs, shared, true, d, Di(va), flags);
    var (n, ok) := EnsureTable(m, d, Di(va), flags);
    if ok {
      assert Live(n, dirs, shared, true, TableOf(d, Di(va)));
      TableKeepsMarks(m, d, Di(va), flags);
    }
  }

  lemma PageNumbers(a: nat, end: nat)
    requires a % PAGE_SIZE == 0 && a < end
    ensures a / PAGE_SIZE * PAGE_SIZE == a && a / PAGE_SIZE < PageEnd(end)
    ensures (a + PAGE_SIZE) / PAGE_SIZE == a / PAGE_SIZE + 1 && (a + PAGE_SIZE) % PAGE_SIZE == 0
  {
  }

  /** One step of the page loop, at page-aligned address `a`. */
  lemma PageLoopStep(m: Machine, dirs: set<nat>, shared: set<nat>, d: nat, a: nat, end: nat)
    requires Spaces(m, dirs, shared) && d in dirs
    requires a % PAGE_SIZE == 0 && UserPages(a / PAGE_SIZE, PageEnd(end)) && a < end
    ensures var n := PageTables.AllocVirt(m, d, a, USER_FLAGS, USER_FLAGS);
      && Spaces(n, dirs, shared) && (a + PAGE_SIZE) % PAGE_SIZE == 0
      && UserPages((a + PAGE_SIZE) / PAGE_SIZE, PageEnd(end))
      && AllocPages(m, d, a / PAGE_SIZE, PageEnd(end)) == AllocPages(n, d, (a + PAGE_SIZE) / PAGE_SIZE, PageEnd(end))
  {
    PageNumbers(a, end);
    UserPage(a / PAGE_SIZE);
    AllocKeeps(m, dirs, shared, d, a, USER_FLAGS, USER_FLAGS);
  }

  lemma UserAddress(a: nat)
    requires a % PAGE_SIZE == 0 && UserPages(a / PAGE_SIZE, a / PAGE_SIZE + 1)
    ensures !KernelSlot(Di(a))
  {
    UserPage(a / PAGE_SIZE);
  }

  /** What the heap relies on holds when it is initialized. */
  lemma ReadyOnceInitialized(t: Task, b: Backing, dirs: set<nat>, shared: set<nat>, mem: seq<nat>)
    requires TaskInv(t, b) && |mem| == WORDS_PER_BLOCK * USER_HEAP_BLOCKS && Spaces(t.proc.m, dirs, shared)
    requires b == BackingOf(t, dirs, shared)
    ensures var u := Initialized(t, mem);
      u.initialized && Inv(u.h) && Settled(u) && UserRange(u.proc) && Spaces(u.proc.m, dirs, shared)
  {
    if !t.initialized {
      InitKeeps(t, b, mem);
    }
  }

  /** The page tables and the heap share no object. */
  ghost predicate SeparateFrom(vm: VirtualMemory, blocks: BlockMap, memory: array<nat>) {
    var space: set<object> := {vm, vm.frames, vm.frames.words, vm.memory};
    var heap: set<object> := {blocks, blocks.words, memory};
    space !! heap
  }

  class UserProcess {
    const vm: VirtualMemory
    const dir: nat
    const image: nat              // imageBase + imageSize
    var brk: nat

    const blocks: BlockMap        // the heap's bitmap and its counter
    const memory: array<nat>      // the heap's words
    var heapInitialized: bool
    var heapBase: nat
    var sbrkTop: nat

    ghost var live: seq<Block>
    ghost var refusals: nat

    constructor (v: VirtualMemory, d: nat, end: nat, b: BlockMap, mem: array<nat>)
      requires v.Valid() && b.Valid() && SeparateFrom(v, b, mem)
      requires b.maxBlocks == USER_HEAP_BLOCKS && b.usedBlocks == 0 && mem.Length == WORDS_PER_BLOCK * USER_HEAP_BLOCKS
      ensures Valid() && vm == v && blocks == b && memory == mem
      ensures State() == Task(Process(v.State(), d, end, end, 0), false, Heap([], 0, [], []), 0, 0)
    {
      vm, dir, image, brk := v, d, end, end;
      blocks, memory, heapInitialized, heapBase, sbrkTop := b, mem, false, 0, 0;
      live, refusals := [], 0;
    }

    ghost predicate Valid()
      reads this, blocks, blocks.words, memory, vm, vm.frames, vm.frames.words, vm.memory
    {
      && blocks.Valid() && blocks.maxBlocks == USER_HEAP_BLOCKS && memory.Length == WORDS_PER_BLOCK * USER_HEAP_BLOCKS
      && vm.Valid() && SeparateFrom(vm, blocks, memory)
      && (!heapInitialized ==> blocks.usedBlocks == 0 && live == [])
    }

    ghost function Proc(): Process
      reads this, vm, vm.frames, vm.frames.words, vm.memory
    {
      Process(vm.State(), dir, image, brk, refusals)
    }

    ghost function HeapState(): Heap
      reads this, blocks, blocks.words, memory
    {
      if heapInitialized then Heap(blocks.Map(), blocks.usedBlocks, memory[..], live) else Heap([], 0, [], [])
    }

    ghost function State(): Task
      reads this, blocks, blocks.words, memory, vm, vm.frames, vm.frames.words, vm.memory
    {
      Task(Proc(), heapInitialized, HeapState(), heapBase, sbrkTop)
    }

    /** inc_proc_brk */
    method IncProcBrk(inc: nat, ghost dirs: set<nat>, ghost shared: set<nat>) returns (oldBrk: nat)
      requires Valid() && Spaces(vm.State(), dirs, shared) && dir in dirs
      requires UserPages(brk / PAGE_SIZE, PageEnd(brk + inc))
      modifies this`brk, this`refusals, vm.frames`usedBlocks, vm.frames.words, vm.memory
      ensures Valid() && (Proc(), oldBrk) == IncBrk(old(Proc()), inc)
    {
      if brk == 0 || brk + inc > image + SBRK_LIM {
        refusals := refusals + 1;
        return 0;
      }
      oldBrk := brk;
      brk := oldBrk + inc;
      if oldBrk % PAGE_SIZE + inc >= PAGE_SIZE || oldBrk % PAGE_SIZE == 0 {
        MapPages(oldBrk - oldBrk % PAGE_SIZE, brk, dirs, shared);
      }
    }

    /** The loop of inc_proc_brk, from page-aligned address `start` on. */
    method MapPages(start: nat, end: nat, ghost dirs: set<nat>, ghost shared: set<nat>)
      requires Valid() && Spaces(vm.State(), dirs, shared) && dir in dirs
      requires start % PAGE_SIZE == 0 && UserPages(start / PAGE_SIZE, PageEnd(end))
      modifies vm.frames`usedBlocks, vm.frames.words, vm.memory
      ensures Valid()
      ensures vm.State() == AllocPages(old(vm.State()), dir, start / PAGE_SIZE, PageEnd(end))
    {
      ghost var result := AllocPages(vm.State(), dir, start / PAGE_SIZE, PageEnd(end));
      var pageAligned := start;
      while pageAligned < end
        invariant Valid() && Spaces(vm.State(), dirs, shared)
        invariant pageAligned % PAGE_SIZE == 0 && start <= pageAligned
        invariant UserPages(pageAligned / PAGE_SIZE, PageEnd(end))
        invariant AllocPages(vm.State(), dir, pageAligned / PAGE_SIZE, PageEnd(end)) == result
      {
        UserAddress(pageAligned);
        TableInMemory(vm.State(), dirs, shared, dir, pageAligned, USER_FLAGS);
        PageLoopStep(vm.State(), dirs, shared, dir, pageAligned, end);
        vm.AllocVirt(dir, pageAligned, USER_FLAGS, USER_FLAGS);
        pageAligned := pageAligned + PAGE_SIZE;
      }
    }

    /** heap_init */
    method HeapInit(ghost dirs: set<nat>, ghost shared: set<nat>)
      requires Valid() && !heapInitialized && Spaces(vm.State(), dirs, shared) && dir in dirs
      requires UserPages(brk / PAGE_SIZE, PageEnd(brk + BITMAP_BYTES))
      modifies this`brk, this`refusals, this`heapInitialized, this`heapBase, this`sbrkTop
      modifies vm.frames`usedBlocks, vm.frames.words, vm.memory, blocks.words
      ensures Valid() && State() == UserHeap.HeapInit(old(State()), memory[..])
    {
      var start := IncProcBrk(BITMAP_BYTES, dirs, shared);
      blocks.ClearMap();
      heapBase := start + BITMAP_BYTES;
      sbrkTop := heapBase;
      heapInitialized := true;
      assert blocks.Map() == ClearedMap();
    }

    /** What the calls of the heap rely on and, by the lemmas about their effects, keep. */
    ghost predicate Ready(dirs: set<nat>, shared: set<nat>)
      reads this, blocks, blocks.words, memory, vm, vm.frames, vm.frames.words, vm.memory
    {
      && Valid() && Inv(HeapState()) && Settled(State()) && UserRange(Proc())
      && Spaces(vm.State(), dirs, shared) && dir in dirs
    }

    /** The part of malloc_alloc_blocks that moves the break, up to address `end`. */
    method GrowTo(end: nat, ghost dirs: set<nat>, ghost shared: set<nat>)
      requires Ready(dirs, shared) && heapInitialized && end <= HeapEnd(Proc())
      modifies this`brk, this`refusals, this`sbrkTop, vm.frames`usedBlocks, vm.frames.words, vm.memory
      ensures Valid() && State() == Grown(old(State()), end)
    {
      hide IncBrk, HeapEnd, Total, AllocPages, Headers, Own, Used, Inv, AllBelow, Disjoint;
      if end > sbrkTop {
        var inc := end - sbrkTop;
        BreakPages(Proc(), brk, inc);
        var _ := IncProcBrk(inc, dirs, shared);
        sbrkTop := sbrkTop + inc;
      }
    }

    /** The blocks are marked, and malloc writes their number in front. */
    method TakeBlocks(frame: nat, blockAmt: nat)
      requires Valid() && heapInitialized && frame + blockAmt <= 32 * blocks.words.Length && blockAmt >= 1
      modifies this`live, memory, blocks`usedBlocks, blocks.words
      ensures Valid() && State() == old(State()).(h := Taken(old(HeapState()), frame, blockAmt))
    {
      blocks.MarkBlocks(frame, blockAmt);
      memory[frame * HEAP_BLOCK_SIZE / 4] := blockAmt;
      live := live + [Block(frame, blockAmt)];
    }

    /** malloc, once the heap is initialized: the address of the header, or 0. */
    method MallocBlocks(blockAmt: nat, ghost dirs: set<nat>, ghost shared: set<nat>) returns (addr: nat)
      requires Ready(dirs, shared) && heapInitialized && blockAmt >= 1
      modifies this`brk, this`refusals, this`sbrkTop, this`live, memory
      modifies vm.frames`usedBlocks, vm.frames.words, vm.memory, blocks`usedBlocks, blocks.words
      ensures Valid() && State() == MallocOf(old(State()), blockAmt)
      ensures var f := BlockHeap.Malloc(old(State()).h, blockAmt).1;
              addr == if f == -1 then 0 else heapBase + HEAP_BLOCK_SIZE * f
    {
      hide AllBelow, Spaces, Inv, Total, IncBrk, Covers, Own, Used, Headers, Disjoint, FirstRun, UserRange,
        WellFormed, Live, AllocUserPage, PageEnd, AllocPages, KernelSlot;
      ghost var h := HeapState();
      var frame := blocks.FindBlocks(blockAmt);
      assert frame == BlockHeap.Malloc(h, blockAmt).1;
      if frame == -1 {
        return 0;
      }
      addr := heapBase + frame * HEAP_BLOCK_SIZE;
      GrowTo(addr + blockAmt * HEAP_BLOCK_SIZE, dirs, shared);
      TakeBlocks(frame, blockAmt);
    }

    /** free of null or of the i-th live pointer. */
    method Free(addr: nat, ghost i: nat, ghost dirs: set<nat>, ghost shared: set<nat>)
      requires Ready(dirs, shared)
      requires addr != 0 ==> heapInitialized && i < |live|
      requires addr != 0 ==> addr == heapBase + HEAP_BLOCK_SIZE * live[i].start + BLOCK_AMT_DESC_SIZE
      modifies this`live, blocks`usedBlocks, blocks.words
      ensures Valid()
      ensures State() == if addr == 0 then old(State()) else old(State()).(h := BlockHeap.Free(old(State()).h, i))
    {
      hide Inv, Total, Disjoint, SetRange, Without, Spaces, Own, Covers;
      if addr != 0 {
        ghost var h := HeapState();
        LiveFits(h, i);
        var blockAmt := memory[(addr - BLOCK_AMT_DESC_SIZE - heapBase) / 4];
        blocks.FreeBlocks((addr - BLOCK_AMT_DESC_SIZE - heapBase) / HEAP_BLOCK_SIZE, blockAmt);
        live := Without(live, i);
      }
    }

    /** The heap is initialized unless it is already. */
    method EnsureInitialized(ghost dirs: set<nat>, ghost shared: set<nat>, ghost b: Backing)
      requires Ready(dirs, shared) && b == BackingOf(State(), dirs, shared) && TaskPages(State(), b)
      modifies this`brk, this`refusals, this`sbrkTop, this`heapInitialized, this`heapBase
      modifies vm.frames`usedBlocks, vm.frames.words, vm.memory, blocks.words
      ensures Ready(dirs, shared) && heapInitialized && memory[..] == old(memory[..])
      ensures State() == Initialized(old(State()), memory[..])
    {
      ReadyOnceInitialized(State(), b, dirs, shared, memory[..]);
      if !heapInitialized {
        BreakPages(Proc(), brk, BITMAP_BYTES);
        HeapInit(dirs, shared);
      }
    }

    /** malloc: the address behind the header, or 0. */
    method Malloc(size: nat, ghost dirs: set<nat>, ghost shared: set<nat>, ghost b: Backing) returns (addr: nat)
      requires Ready(dirs, shared) && size <= MAX_REQUEST
      requires b == BackingOf(State(), dirs, shared) && TaskPages(State(), b)
      modifies this`brk, this`refusals, this`sbrkTop, this`live, this`heapInitialized, this`heapBase, memory
      modifies vm.frames`usedBlocks, vm.frames.words, vm.memory, blocks`usedBlocks, blocks.words
      ensures Valid() && State() == UserMalloc(Initialized(old(State()), old(memory[..])), size)
      ensures var f := BlockHeap.Malloc(Initialized(old(State()), old(memory[..])).h, BlocksFor(size)).1;
              addr == if f == -1 then 0 else heapBase + HEAP_BLOCK_SIZE * f + BLOCK_AMT_DESC_SIZE
    {
      hide Used, Inv, Backed, Supplied, TaskPages, PagesBacked, PageEnd, HeapState, Valid, Initialized, Own, Spaces,
        Headers, Total;
      EnsureInitialized(dirs, shared, b);
      var total := size + BLOCK_AMT_DESC_SIZE;
      if total % HEAP_BLOCK_SIZE != 0 {
        total := total + (HEAP_BLOCK_SIZE - total % HEAP_BLOCK_SIZE);
      }
      assert total / HEAP_BLOCK_SIZE == BlocksFor(size);
      addr := MallocBlocks(total / HEAP_BLOCK_SIZE, dirs, shared);
      if addr != 0 {
        addr := addr + BLOCK_AMT_DESC_SIZE;
      }
    }
  }
}
