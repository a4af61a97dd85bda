/** The user heap over the process break over the page tables: malloc, sbrk and alloc_virt together. */
module UserHeap {
  import opened Bitmaps
  import opened PageEntries
  import opened PageTables
  import opened Ownership
  import opened AddressSpaces
  import opened BlockHeap

  const HEAP_LIM: nat := 0x40_0000
  const SBRK_LIM: nat := 0x4000_0000
  const BITMAP_BYTES: nat := HEAP_LIM / HEAP_BLOCK_SIZE / 8
  const USER_FLAGS: bv12 := WRITABLE | USER

  /** A process and the machine it runs on: `d` is its directory, `image` is imageBase + imageSize,
      where the break starts, and `refusals` counts how often the break limit was hit. */
  datatype Process = Process(m: Machine, d: nat, image: nat, brk: nat, refusals: nat)

  /** A process with its heap, which is not initialized before the first malloc. */
  datatype Task = Task(proc: Process, initialized: bool, h: Heap, heapBase: nat, sbrkTop: nat)

  // ---------------------------------------------------------------- pages

  /** The mapping of a virtual page, by page number. */
  function Page(m: Machine, d: nat, p: nat): Mapped {
    PageAt(m, d, Di(p * PAGE_SIZE), Ti(p * PAGE_SIZE))
  }

  /** Which of the pages lo <= p < hi are mapped. */
  ghost function MappedPages(m: Machine, d: nat, lo: nat, hi: nat): (b: seq<bool>)
    requires lo <= hi
    ensures |b| == hi - lo && forall k :: 0 <= k < |b| ==> b[k] == (Page(m, d, lo + k) != Unmapped)
  {
    seq(hi - lo, k requires 0 <= k < hi - lo => Page(m, d, lo + k) != Unmapped)
  }

  /** Which of the directory slots lo <= i < hi have a table. */
  ghost function PresentTables(m: Machine, d: nat, lo: nat, hi: nat): (b: seq<bool>)
    requires lo <= hi
    ensures |b| == hi - lo && forall k :: 0 <= k < |b| ==> b[k] == At(m, d, lo + k).Present()
  {
    seq(hi - lo, k requires 0 <= k < hi - lo => At(m, d, lo + k).Present())
  }

  /** The frames it takes to map every page lo <= p < hi: one for each missing page and one for each
      missing table. */
  ghost function FramesNeeded(m: Machine, d: nat, lo: nat, hi: nat): nat
    requires lo < hi
  {
    Unused(MappedPages(m, d, lo, hi)) + Unused(PresentTables(m, d, lo / 1024, (hi - 1) / 1024 + 1))
  }

  /** Frames that the allocator can still hand out. */
  function Available(m: Machine): int {
    var byBits, byCount := Unused(m.used) as int, m.maxBlocks - m.counter;
    if byBits < byCount then byBits else byCount
  }

  // ---------------------------------------------------------------- inc_proc_brk

  /** The body of the loop of inc_proc_brk, for the page with number `p`. */
  ghost function AllocUserPage(m: Machine, d: nat, p: nat): Machine {
    AllocVirt(m, d, p * PAGE_SIZE, USER_FLAGS, USER_FLAGS)
  }

  /** The loop of inc_proc_brk. */
  ghost function AllocPages(m: Machine, d: nat, p: nat, end: nat): Machine
    decreases end - p
  {
    if p >= end then m else AllocPages(AllocUserPage(m, d, p), d, p + 1, end)
  }

  /** The page number just above the last byte before address `a`. */
  function PageEnd(a: nat): nat { (a + PAGE_SIZE - 1) / PAGE_SIZE }

  /** inc_proc_brk: the old break, or 0 if the limit is hit. */
  ghost function IncBrk(p: Process, inc: nat): (Process, nat) {
    if p.brk == 0 || p.brk + inc > p.image + SBRK_LIM then (p.(refusals := p.refusals + 1), 0)
    else if p.brk % PAGE_SIZE + inc >= PAGE_SIZE || p.brk % PAGE_SIZE == 0 then
      (p.(m := AllocPages(p.m, p.d, p.brk / PAGE_SIZE, PageEnd(p.brk + inc)), brk := p.brk + inc), p.brk)
    else (p.(brk := p.brk + inc), p.brk)
  }

  /** The break moves by what is asked for, up to 1 GB behind the image, and else not at all; within the page
      that it is in, no page is asked for. */
  lemma BreakLimit(p: Process, inc: nat)
    ensures var ((q, r), ok) := (IncBrk(p, inc), p.brk != 0 && p.brk + inc <= p.image + 0x4000_0000);
      && r == (if ok then p.brk else 0) && q.brk == (if ok then p.brk + inc else p.brk)
      && q.d == p.d && q.image == p.image && q.refusals == (if ok then p.refusals else p.refusals + 1)
      && (!ok || (p.brk % 4096 != 0 && p.brk % 4096 + inc < 4096) ==> q.m == p.m)
  {
  }

  // ---------------------------------------------------------------- malloc and free

  const USER_HEAP_BLOCKS: nat := HEAP_LIM / HEAP_BLOCK_SIZE

  function ClearedMap(): (b: seq<bool>)
    ensures |b| == USER_HEAP_BLOCKS && forall k :: 0 <= k < |b| ==> !b[k]
  {
    seq(USER_HEAP_BLOCKS, i => false)
  }

  /** heap_init; `mem` is what the heap's memory holds at that moment. */
  ghost function HeapInit(t: Task, mem: seq<nat>): Task {
    var (proc, start) := IncBrk(t.proc, BITMAP_BYTES);
    t.(proc := proc, initialized := true, heapBase := start + BITMAP_BYTES, sbrkTop := start + BITMAP_BYTES,
        h := Heap(ClearedMap(), 0, mem, []))
  }

  ghost function Initialized(t: Task, mem: seq<nat>): Task {
    if t.initialized then t else HeapInit(t, mem)
  }

  /** The break is moved if the heap's top is below address `end`. */
  ghost function Grown(t: Task, end: nat): Task {
    if end > t.sbrkTop then t.(proc := IncBrk(t.proc, end - t.sbrkTop).0, sbrkTop := end) else t
  }

  /** malloc of `n` blocks on an initialized heap. */
  ghost function MallocOf(t: Task, n: nat): Task
    requires |t.h.mem| == WORDS_PER_BLOCK * |t.h.bits| && n >= 1
  {
    var (h', f) := Malloc(t.h, n);
    if f == -1 then t else Grown(t, t.heapBase + HEAP_BLOCK_SIZE * (f + n)).(h := h')
  }

  ghost function UserMalloc(t: Task, size: nat): Task
    requires |t.h.mem| == WORDS_PER_BLOCK * |t.h.bits|
  {
    MallocOf(t, BlocksFor(size))
  }

  datatype UserCall = MallocCall(size: nat, mem: seq<nat>) | FreeCall(i: nat) | StoreCall(w: nat, v: nat)

  ghost predicate Legal(t: Task, c: UserCall) {
    match c
    case MallocCall(size, mem) => size <= MAX_REQUEST && |mem| == WORDS_PER_BLOCK * USER_HEAP_BLOCKS
    case FreeCall(i) => i < |t.h.live|
    case StoreCall(w, _) => InPayload(t.h, w)
  }

  ghost function Call(t: Task, c: UserCall): Task
    requires Inv(t.h) && Legal(t, c)
  {
    match c
    case MallocCall(size, mem) => UserMalloc(Initialized(t, mem), size)
    case FreeCall(i) => t.(h := Free(t.h, i))
    case StoreCall(w, v) => PayloadWriteKeepsInv(t.h, w, v); t.(h := t.h.(mem := t.h.mem[w := v]))
  }

  // ---------------------------------------------------------------- the invariant

  /** Where the heap and its bitmap end at most. */
  function HeapEnd(p: Process): nat { p.image + BITMAP_BYTES + HEAP_LIM }

  /** The page number behind the last one that the heap can need. */
  function LastPage(p: Process): nat { PageEnd(HeapEnd(p)) }

  /** The heap's addresses are user addresses: above the first 4 MB, below the kernel. */
  predicate UserRange(p: Process) {
    0x40_0000 <= p.image && HeapEnd(p) <= 0xC000_0000
  }

  /** Every live block lies below `top` in a heap that starts at `base`. */
  predicate AllBelow(live: seq<Block>, base: nat, top: nat) {
    forall i :: 0 <= i < |live| ==> base + HEAP_BLOCK_SIZE * (live[i].start + live[i].len) <= top
  }

  /** The heap and the break of the process agree, and every live block lies below the break. */
  ghost predicate Settled(t: Task) {
    && t.proc.refusals == 0
    && if t.initialized then
         && |t.h.bits| == USER_HEAP_BLOCKS
         && t.heapBase == t.proc.image + BITMAP_BYTES
         && t.sbrkTop == t.proc.brk && t.heapBase <= t.proc.brk <= HeapEnd(t.proc)
         && AllBelow(t.h.live, t.heapBase, t.sbrkTop)
       else t.proc.brk == t.proc.image && t.h.live == []
  }

  /** The page tables are in order, and there are enough free frames for what is not yet mapped of
      the pages lo <= p < hi. */
  ghost predicate Supplied(m: Machine, d: nat, dirs: set<nat>, shared: set<nat>, lo: nat, hi: nat) {
    && lo < hi && Spaces(m, dirs, shared) && d in dirs
    && FramesNeeded(m, d, lo, hi) <= Available(m)
  }

  /** Every page lo <= p < hi is mapped. */
  ghost predicate Present(m: Machine, d: nat, lo: nat, hi: nat) {
    forall p: nat :: lo <= p < hi ==> Page(m, d, p) != Unmapped
  }

  /** The entry of the page and that of its table are present, writable and open to user mode. */
  predicate Open(m: Machine, d: nat, p: nat) {
    At(m, d, p / 1024).flags & 7 == 7 && PageEntry(m, d, p / 1024, p % 1024).flags & 7 == 7
  }

  /** Every page lo <= p < hi that is mapped and was not in `m0` is open. */
  ghost predicate NewAreOpen(m0: Machine, m: Machine, d: nat, lo: nat, hi: nat) {
    forall p: nat :: lo <= p < hi && Page(m0, d, p) == Unmapped && Page(m, d, p) != Unmapped ==> Open(m, d, p)
  }

  ghost predicate Backed(m0: Machine, m: Machine, d: nat, dirs: set<nat>, shared: set<nat>, lo: nat, hi: nat, p: nat) {
    Supplied(m, d, dirs, shared, lo, hi) && Present(m, d, lo, p) && NewAreOpen(m0, m, d, lo, hi)
  }

  /** A property of the machine and of a page number: "backed up to this page". */
  type Backing = (Machine, nat) -> bool

  /** One more page keeps the backing, and what is backed further is backed. */
  ghost predicate Grows(b: Backing, d: nat, lo: nat, hi: nat) {
    && (forall m, p: nat | lo <= p < hi && b(m, p) :: b(AllocUserPage(m, d, p), p + 1))
    && (forall m, p: nat, q: nat | lo <= p <= q && b(m, q) :: b(m, p))
  }

  ghost predicate PagesBacked(p: Process, b: Backing, end: nat) {
    UserRange(p) && Grows(b, p.d, p.image / PAGE_SIZE, LastPage(p)) && b(p.m, end)
  }

  ghost predicate TaskPages(t: Task, b: Backing) {
    PagesBacked(t.proc, b, if t.initialized then PageEnd(t.proc.brk) else t.proc.image / PAGE_SIZE)
  }

  ghost predicate TaskInv(t: Task, b: Backing) {
    Inv(t.h) && Settled(t) && TaskPages(t, b)
  }

  // ---------------------------------------------------------------- page arithmetic

  lemma PageIndices(p: nat)
    requires p < 0x10_0000
    ensures Di(p * PAGE_SIZE) == p / 1024 && Ti(p * PAGE_SIZE) == p % 1024
  {
  }

  lemma OtherPage(p: nat, q: nat)
    requires p < 0x10_0000 && q < 0x10_0000 && p != q
    ensures (Di(p * PAGE_SIZE), Ti(p * PAGE_SIZE)) != (Di(q * PAGE_SIZE), Ti(q * PAGE_SIZE))
  {
    PageIndices(p);
    PageIndices(q);
  }

  /** Page numbers between the first 4 MB and the kernel. */
  predicate UserPages(lo: nat, hi: nat) {
    0x400 <= lo && hi <= 0xC_0000
  }

  lemma UserPage(p: nat)
    requires UserPages(p, p + 1)
    ensures !KernelSlot(Di(p * PAGE_SIZE))
  {
    PageIndices(p);
  }

  /** The pages that a move of the break visits lie in the heap's range. */
  lemma BreakPages(p: Process, brk: nat, inc: nat)
    requires UserRange(p) && p.image <= brk && brk + inc <= HeapEnd(p)
    ensures UserPages(p.image / PAGE_SIZE, LastPage(p)) && UserPages(brk / PAGE_SIZE, PageEnd(brk + inc))
    ensures p.image / PAGE_SIZE <= brk / PAGE_SIZE <= PageEnd(brk) <= PageEnd(brk + inc) <= LastPage(p)
    ensures brk % PAGE_SIZE != 0 && brk % PAGE_SIZE + inc < PAGE_SIZE ==> PageEnd(brk + inc) == PageEnd(brk)
  {
  }

  // ---------------------------------------------------------------- enough frames

  lemma AllocFrameSucceeds(m: Machine)
    requires WellFormed(m) && Available(m) >= 1
    ensures AllocFrame(m).1 != 0 && Available(AllocFrame(m).0) == Available(m) - 1
  {
    AllUsed(m.used);
    var k :| 0 <= k < |m.used| && !m.used[k];
    assert FreeRun(m.used, k, 1);
    UsedAfterUpdate(m.used, FirstRun(m.used, 1), true);
  }

  function Cost(m: Machine, d: nat, va: nat): nat {
    (if PageAt(m, d, Di(va), Ti(va)) == Unmapped then 1 else 0) + (if At(m, d, Di(va)).Present() then 0 else 1)
  }

  /** With as many frames as are missing, alloc_virt maps the page and takes exactly those. */
  lemma AllocVirtMaps(m: Machine, dirs: set<nat>, shared: set<nat>, d: nat, va: nat)
    requires Spaces(m, dirs, shared) && d in dirs && !KernelSlot(Di(va)) && Available(m) >= Cost(m, d, va)
    ensures var n := AllocVirt(m, d, va, USER_FLAGS, USER_FLAGS);
      && PageAt(n, d, Di(va), Ti(va)) != Unmapped && At(n, d, Di(va)).Present()
      && Available(n) == Available(m) - Cost(m, d, va)
  {
    var i, j := Di(va), Ti(va);
    if !At(m, d, i).Present() {
      AllocFrameSucceeds(m);
    }
    EnsureTableEffect(m, dirs, shared, true, d, i, USER_FLAGS);
    var (m1, ok) := EnsureTable(m, d, i, USER_FLAGS);
    assert ok && Available(m1) == Available(m) - (if At(m, d, i).Present() then 0 else 1);
    if PageAt(m1, d, i, j) == Unmapped {
      AllocFrameSucceeds(m1);
      AllocPageEffect(m1, dirs, shared, true, d, i, j, USER_FLAGS);
      assert Available(AllocPage(m1, At(m1, d, i).frame, j, USER_FLAGS)) == Available(AllocFrame(m1).0);
    }
  }

  /** The page and its table count among the frames needed. */
  lemma CostIsNeeded(m: Machine, d: nat, lo: nat, hi: nat, p: nat)
    requires lo <= p < hi <= 0x10_0000
    ensures Cost(m, d, p * PAGE_SIZE) <= FramesNeeded(m, d, lo, hi)
  {
    PageIndices(p);
    if Page(m, d, p) == Unmapped {
      UnusedPositive(MappedPages(m, d, lo, hi), p - lo);
    }
    if !At(m, d, p / 1024).Present() {
      UnusedPositive(PresentTables(m, d, lo / 1024, (hi - 1) / 1024 + 1), p / 1024 - lo / 1024);
    }
  }

  lemma OneMorePage(m: Machine, n: Machine, d: nat, lo: nat, hi: nat, p: nat)
    requires lo <= p < hi && Page(n, d, p) != Unmapped
    requires forall q: nat :: lo <= q < hi && q != p ==> Page(n, d, q) == Page(m, d, q)
    ensures Unused(MappedPages(n, d, lo, hi))
         == Unused(MappedPages(m, d, lo, hi)) - (if Page(m, d, p) == Unmapped then 1 else 0)
  {
    OneMore(MappedPages(m, d, lo, hi), MappedPages(n, d, lo, hi), p - lo);
  }

  lemma OneMoreTable(m: Machine, n: Machine, d: nat, lo: nat, hi: nat, i: nat)
    requires lo <= i < hi && At(n, d, i).Present()
    requires forall k: nat :: k != i ==> At(n, d, k) == At(m, d, k)
    ensures Unused(PresentTables(n, d, lo, hi))
         == Unused(PresentTables(m, d, lo, hi)) - (if At(m, d, i).Present() then 0 else 1)
  {
    OneMore(PresentTables(m, d, lo, hi), PresentTables(n, d, lo, hi), i - lo);
  }

  /** Mapping one page lowers the frames needed by what it cost. */
  lemma NeededAfter(m: Machine, n: Machine, d: nat, lo: nat, hi: nat, p: nat)
    requires lo <= p < hi <= 0x10_0000
    requires forall q: nat :: lo <= q < hi && q != p ==> Page(n, d, q) == Page(m, d, q)
    requires forall i: nat :: i != p / 1024 ==> At(n, d, i) == At(m, d, i)
    requires Page(n, d, p) != Unmapped && At(n, d, p / 1024).Present()
    ensures FramesNeeded(n, d, lo, hi) == FramesNeeded(m, d, lo, hi) - Cost(m, d, p * PAGE_SIZE)
  {
    PageIndices(p);
    OneMorePage(m, n, d, lo, hi, p);
    OneMoreTable(m, n, d, lo / 1024, (hi - 1) / 1024 + 1, p / 1024);
  }

  /** One step of the page loop. */
  lemma StepKeeps(m: Machine, d: nat, dirs: set<nat>, shared: set<nat>, lo: nat, hi: nat, p: nat)
    requires Supplied(m, d, dirs, shared, lo, hi) && UserPages(lo, hi) && lo <= p < hi
    ensures var n := AllocUserPage(m, d, p);
      && Supplied(n, d, dirs, shared, lo, hi)
      && Page(n, d, p) != Unmapped
      && forall q: nat :: q != p && q < hi ==> Page(n, d, q) == Page(m, d, q)
  {
    var va := p * PAGE_SIZE;
    var n := AllocVirt(m, d, va, USER_FLAGS, USER_FLAGS);
    UserPage(p);
    PageIndices(p);
    AllocKeeps(m, dirs, shared, d, va, USER_FLAGS, USER_FLAGS);
    AllocVirtEffect(m, dirs, shared, true, d, va, USER_FLAGS, USER_FLAGS);
    forall q: nat | q != p && q < hi ensures Page(n, d, q) == Page(m, d, q) { OtherPage(p, q); }
    CostIsNeeded(m, d, lo, hi, p);
    AllocVirtMaps(m, dirs, shared, d, va);
    NeededAfter(m, n, d, lo, hi, p);
  }

  lemma OpenFlags(slot: bv12, page: bv12)
    requires Includes(slot, USER_FLAGS) && Includes(page, USER_FLAGS) && slot & PRESENT != 0 && page & PRESENT != 0
    ensures slot & 7 == 7 && page & 7 == 7
  {
  }

  /** The page of one step is open if it was not mapped before that, or was open. */
  lemma StepOpens(m: Machine, d: nat, dirs: set<nat>, shared: set<nat>, p: nat)
    requires Spaces(m, dirs, shared) && d in dirs && UserPages(p, p + 1)
    requires Page(m, d, p) == Unmapped || Open(m, d, p)
    ensures Page(AllocUserPage(m, d, p), d, p) != Unmapped ==> Open(AllocUserPage(m, d, p), d, p)
  {
    hide Spaces, AllocVirt, KernelSlot, Includes;
    UserPage(p);
    PageIndices(p);
    SpacesOwn(m, dirs, shared, d, p);
    AllocVirtFlags(m, dirs, shared, true, d, p * PAGE_SIZE, USER_FLAGS, USER_FLAGS);
    var n := AllocUserPage(m, d, p);
    if Page(n, d, p) != Unmapped {
      OpenHasFlags(m, d, p);
      OpenFlags(At(n, d, p / 1024).flags, PageEntry(n, d, p / 1024, p % 1024).flags);
    }
  }

  lemma OpenHasFlags(m: Machine, d: nat, p: nat)
    requires Page(m, d, p) == Unmapped || Open(m, d, p)
    ensures Open(m, d, p) ==> Includes(PageEntry(m, d, p / 1024, p % 1024).flags, USER_FLAGS)
  {
    SevenHasFlags(PageEntry(m, d, p / 1024, p % 1024).flags);
  }

  lemma SevenHasFlags(f: bv12)
    ensures f & 7 == 7 ==> Includes(f, USER_FLAGS)
  {
  }

  lemma SpacesOwn(m: Machine, dirs: set<nat>, shared: set<nat>, d: nat, p: nat)
    requires Spaces(m, dirs, shared) && d in dirs && UserPages(p, p + 1)
    ensures Own(m, dirs, shared, true) && Private(m, shared, d, Di(p * PAGE_SIZE))
  {
    UserPage(p);
  }

  /** Another page that is open stays so. */
  lemma StepKeepsOpen(m: Machine, d: nat, dirs: set<nat>, shared: set<nat>, p: nat, q: nat)
    requires Spaces(m, dirs, shared) && d in dirs && UserPages(p, p + 1) && q < 0x10_0000 && q != p
    requires Page(m, d, q) != Unmapped && Open(m, d, q)
    ensures Open(AllocUserPage(m, d, p), d, q)
  {
    hide Spaces, AllocVirt, KernelSlot, Includes, PageEntry;
    PageIndices(q);
    PageIndices(p);
    OtherPage(p, q);
    SpacesOwn(m, dirs, shared, d, p);
    OtherEntriesKept(m, dirs, shared, true, d, p * PAGE_SIZE, USER_FLAGS, USER_FLAGS, q / 1024, q % 1024);
    AllocVirtFlags(m, dirs, shared, true, d, p * PAGE_SIZE, USER_FLAGS, USER_FLAGS);
    AllocVirtEffect(m, dirs, shared, true, d, p * PAGE_SIZE, USER_FLAGS, USER_FLAGS);
    var n := AllocUserPage(m, d, p);
    if q / 1024 == p / 1024 {
      OpenFlags(At(n, d, q / 1024).flags, At(n, d, q / 1024).flags);
    }
  }

  lemma StepKeepsNewOpen(m0: Machine, m: Machine, d: nat, dirs: set<nat>, shared: set<nat>, lo: nat, hi: nat, p: nat)
    requires Spaces(m, dirs, shared) && d in dirs && UserPages(lo, hi) && lo <= p < hi && NewAreOpen(m0, m, d, lo, hi)
    ensures NewAreOpen(m0, AllocUserPage(m, d, p), d, lo, hi)
  {
    hide Open, AllocVirt, Spaces, KernelSlot;
    var n := AllocUserPage(m, d, p);
    SpacesOwn(m, dirs, shared, d, p);
    AllocVirtEffect(m, dirs, shared, true, d, p * PAGE_SIZE, USER_FLAGS, USER_FLAGS);
    forall q: nat | lo <= q < hi && Page(m0, d, q) == Unmapped && Page(n, d, q) != Unmapped ensures Open(n, d, q) {
      if q == p {
        StepOpens(m, d, dirs, shared, p);
      } else {
        OtherPage(p, q);
        StepKeepsOpen(m, d, dirs, shared, p, q);
      }
    }
  }

  /** Whatever pages the loop of inc_proc_brk maps are open, also when the frames do not last. */
  lemma {:induction false} LoopOpens(m0: Machine, m: Machine, d: nat, dirs: set<nat>, shared: set<nat>,
                                     lo: nat, hi: nat, p: nat, end: nat)
    requires Spaces(m, dirs, shared) && d in dirs && UserPages(lo, hi) && lo <= p && end <= hi
    requires NewAreOpen(m0, m, d, lo, hi)
    ensures NewAreOpen(m0, AllocPages(m, d, p, end), d, lo, hi)
    decreases end - p
  {
    hide NewAreOpen, Spaces, KernelSlot, AllocVirt;
    if p < end {
      UserPage(p);
      AllocKeeps(m, dirs, shared, d, p * PAGE_SIZE, USER_FLAGS, USER_FLAGS);
      StepKeepsNewOpen(m0, m, d, dirs, shared, lo, hi, p);
      LoopOpens(m0, AllocUserPage(m, d, p), d, dirs, shared, lo, hi, p + 1, end);
    }
  }

  /** Every page that inc_proc_brk maps is present, writable and open to user mode, in its own entry and in
      that of its table. */
  lemma NewBreakPagesAreOpen(p: Process, dirs: set<nat>, shared: set<nat>, inc: nat, n: nat)
    requires Spaces(p.m, dirs, shared) && p.d in dirs && UserPages(p.brk / PAGE_SIZE, PageEnd(p.brk + inc))
    requires 0x40_0000 / 4096 <= n < 0xC000_0000 / 4096
    requires var q := IncBrk(p, inc).0; Page(p.m, p.d, n) == Unmapped && Page(q.m, p.d, n) != Unmapped
    ensures var m := IncBrk(p, inc).0.m;
      && At(m, p.d, n / 1024).flags & 7 == 7
      && At(m, At(m, p.d, n / 1024).frame, n % 1024).flags & 7 == 7
  {
    hide Spaces, AllocPages;
    LoopOpens(p.m, p.m, p.d, dirs, shared, 0x400, 0xC_0000, p.brk / PAGE_SIZE, PageEnd(p.brk + inc));
    assert Open(IncBrk(p, inc).0.m, p.d, n);
  }

  lemma {:induction false} LoopKeepsOthers(m: Machine, d: nat, dirs: set<nat>, shared: set<nat>,
                                           p: nat, end: nat, n: nat)
    requires Spaces(m, dirs, shared) && d in dirs && UserPages(p, end) && n < 0x10_0000 && (n < p || n >= end)
    ensures Page(AllocPages(m, d, p, end), d, n) == Page(m, d, n)
    decreases end - p
  {
    hide Spaces, KernelSlot, AllocVirt;
    if p < end {
      UserPage(p);
      SpacesOwn(m, dirs, shared, d, p);
      AllocVirtEffect(m, dirs, shared, true, d, p * PAGE_SIZE, USER_FLAGS, USER_FLAGS);
      OtherPage(p, n);
      AllocKeeps(m, dirs, shared, d, p * PAGE_SIZE, USER_FLAGS, USER_FLAGS);
      LoopKeepsOthers(AllocUserPage(m, d, p), d, dirs, shared, p + 1, end, n);
    }
  }

  /** No page is mapped, unmapped or moved but those from the old break up to the new one. */
  lemma BreakKeepsOthers(p: Process, dirs: set<nat>, shared: set<nat>, inc: nat, n: nat)
    requires Spaces(p.m, dirs, shared) && p.d in dirs && UserPages(p.brk / PAGE_SIZE, PageEnd(p.brk + inc))
    requires n < 0x10_0000 && (n < p.brk / 4096 || n >= (p.brk + inc + 4095) / 4096)
    ensures Page(IncBrk(p, inc).0.m, p.d, n) == Page(p.m, p.d, n)
  {
    hide Spaces, AllocPages;
    LoopKeepsOthers(p.m, p.d, dirs, shared, p.brk / PAGE_SIZE, PageEnd(p.brk + inc), n);
  }

  lemma BackedGrows(m0: Machine, d: nat, dirs: set<nat>, shared: set<nat>, lo: nat, hi: nat)
    requires UserPages(lo, hi)
    ensures Grows((m: Machine, p: nat) => Backed(m0, m, d, dirs, shared, lo, hi, p), d, lo, hi)
  {
    hide NewAreOpen, Spaces, FramesNeeded, AllocUserPage, Page;
    forall m, p: nat | lo <= p < hi && Backed(m0, m, d, dirs, shared, lo, hi, p)
      ensures Backed(m0, AllocUserPage(m, d, p), d, dirs, shared, lo, hi, p + 1)
    {
      StepKeeps(m, d, dirs, shared, lo, hi, p);
      StepKeepsNewOpen(m0, m, d, dirs, shared, lo, hi, p);
    }
  }

  lemma {:induction false} LoopKeeps(b: Backing, m: Machine, d: nat, lo: nat, hi: nat, p: nat, end: nat)
    requires Grows(b, d, lo, hi) && lo <= p <= end <= hi && b(m, p)
    ensures b(AllocPages(m, d, p, end), end)
    decreases end - p
  {
    if p < end {
      LoopKeeps(b, AllocUserPage(m, d, p), d, lo, hi, p + 1, end);
    }
  }

  // ---------------------------------------------------------------- the break

  /** Within the heap's range the break moves as asked, and the pages up to it are backed. The very
      first request must be for a page or more, since the page of the image's end may be absent. */
  lemma BreakMoves(p: Process, b: Backing, end: nat, inc: nat)
    requires PagesBacked(p, b, end) && p.image <= p.brk && p.brk + inc <= HeapEnd(p)
    requires end == PageEnd(p.brk) || (p.brk == p.image && end == p.image / PAGE_SIZE && inc >= PAGE_SIZE)
    ensures var (q, r) := IncBrk(p, inc);
      r == p.brk && q == p.(m := q.m, brk := p.brk + inc) && PagesBacked(q, b, PageEnd(q.brk))
  {
    hide AllocUserPage, PageEnd;
    BreakPages(p, p.brk, inc);
    if p.brk % PAGE_SIZE + inc >= PAGE_SIZE || p.brk % PAGE_SIZE == 0 {
      LoopKeeps(b, p.m, p.d, p.image / PAGE_SIZE, LastPage(p), p.brk / PAGE_SIZE, PageEnd(p.brk + inc));
    }
  }

  // ---------------------------------------------------------------- the calls

  lemma InitKeeps(t: Task, b: Backing, mem: seq<nat>)
    requires TaskInv(t, b) && !t.initialized && |mem| == WORDS_PER_BLOCK * USER_HEAP_BLOCKS
    ensures TaskInv(HeapInit(t, mem), b) && HeapInit(t, mem).initialized
  {
    BreakMoves(t.proc, b, t.proc.image / PAGE_SIZE, BITMAP_BYTES);
    EmptyHeapInv(ClearedMap(), mem);
  }

  lemma BelowAppend(live: seq<Block>, base: nat, top: nat, top': nat, b: Block)
    requires AllBelow(live, base, top) && top <= top' && base + HEAP_BLOCK_SIZE * (b.start + b.len) <= top'
    ensures AllBelow(live + [b], base, top')
  {
  }

  /** The break grows by just as much as the new blocks need. */
  lemma MallocSettles(t: Task, b: Backing, size: nat)
    requires |t.h.mem| == WORDS_PER_BLOCK * |t.h.bits| && Settled(t) && TaskPages(t, b) && t.initialized
    ensures var u := UserMalloc(t, size);
      && Settled(u) && TaskPages(u, b) && u.h == Malloc(t.h, BlocksFor(size)).0
      && var f := Malloc(t.h, BlocksFor(size)).1;
         var end := t.heapBase + 8 * (f + BlocksFor(size));
         u.proc.brk == if f == -1 || end <= t.proc.brk then t.proc.brk else end
  {
    hide PagesBacked, PageEnd, SetRange, Grows, UserRange, LastPage, BlocksFor, FirstRun;
    var n := BlocksFor(size);
    var (h', f) := Malloc(t.h, n);
    if f != -1 {
      var end := t.heapBase + HEAP_BLOCK_SIZE * (f + n);
      BelowAppend(t.h.live, t.heapBase, t.sbrkTop, if end > t.sbrkTop then end else t.sbrkTop, Block(f, n));
      if end > t.sbrkTop {
        BreakMoves(t.proc, b, PageEnd(t.proc.brk), end - t.sbrkTop);
      }
    }
  }

  lemma MallocKeeps(t: Task, b: Backing, size: nat)
    requires TaskInv(t, b) && t.initialized
    ensures TaskInv(UserMalloc(t, size), b)
  {
    MallocSettles(t, b, size);
    MallocKeepsInv(t.h, BlocksFor(size));
  }

  lemma FreeKeepsTask(t: Task, b: Backing, i: nat)
    requires TaskInv(t, b) && i < |t.h.live|
    ensures TaskInv(t.(h := Free(t.h, i)), b)
  {
    FreeKeepsInv(t.h, i);
    BelowWithout(t.h.live, t.heapBase, t.sbrkTop, i);
  }

  lemma BelowWithout(live: seq<Block>, base: nat, top: nat, i: nat)
    requires i < |live| && AllBelow(live, base, top)
    ensures AllBelow(Without(live, i), base, top)
  {
    var r := Without(live, i);
    forall j | 0 <= j < |r| ensures base + HEAP_BLOCK_SIZE * (r[j].start + r[j].len) <= top {
      assert r[j] == live[if j < i then j else j + 1];
    }
  }

  lemma CallKeeps(t: Task, b: Backing, c: UserCall)
    requires TaskInv(t, b) && Legal(t, c)
    ensures TaskInv(Call(t, c), b)
  {
    match c
    case MallocCall(size, mem) =>
      if !t.initialized {
        InitKeeps(t, b, mem);
      }
      MallocKeeps(Initialized(t, mem), b, size);
    case FreeCall(i) => FreeKeepsTask(t, b, i);
    case StoreCall(w, v) => PayloadWriteKeepsInv(t.h, w, v);
  }

  // ---------------------------------------------------------------- runs

  lemma CallKeepsImage(t: Task, c: UserCall)
    requires Inv(t.h) && Legal(t, c)
    ensures Call(t, c).proc.d == t.proc.d && Call(t, c).proc.image == t.proc.image
  {
  }

  ghost predicate LegalRun(t: Task, b: Backing, cs: seq<UserCall>)
    requires TaskInv(t, b)
    decreases |cs|
  {
    cs == [] || (Legal(t, cs[0]) && (CallKeeps(t, b, cs[0]); LegalRun(Call(t, cs[0]), b, cs[1..])))
  }

  ghost function Run(t: Task, b: Backing, cs: seq<UserCall>): (u: Task)
    requires TaskInv(t, b) && LegalRun(t, b, cs)
    ensures TaskInv(u, b) && u.proc.d == t.proc.d && u.proc.image == t.proc.image
    decreases |cs|
  {
    if cs == [] then t
    else CallKeeps(t, b, cs[0]); CallKeepsImage(t, cs[0]); Run(Call(t, cs[0]), b, cs[1..])
  }

  /** The state of a program before its first malloc, with frames enough for its heap. */
  ghost predicate Fresh(t: Task, dirs: set<nat>, shared: set<nat>) {
    && !t.initialized && t.proc.brk == t.proc.image && t.proc.refusals == 0
    && t.h == Heap([], 0, [], [])
    && UserRange(t.proc) && Supplied(t.proc.m, t.proc.d, dirs, shared, t.proc.image / PAGE_SIZE, LastPage(t.proc))
  }

  ghost function BackingOf(t: Task, dirs: set<nat>, shared: set<nat>): Backing {
    (m: Machine, p: nat) => Backed(t.proc.m, m, t.proc.d, dirs, shared, t.proc.image / PAGE_SIZE, LastPage(t.proc), p)
  }

  lemma FreshInv(t: Task, dirs: set<nat>, shared: set<nat>)
    requires Fresh(t, dirs, shared)
    ensures TaskInv(t, BackingOf(t, dirs, shared))
  {
    EmptyHeapInv([], []);
    BreakPages(t.proc, t.proc.image, 0);
    BackedGrows(t.proc.m, t.proc.d, dirs, shared, t.proc.image / PAGE_SIZE, LastPage(t.proc));
  }

  /** After any run of malloc, free and stores through live pointers, with enough frames at its start:
      the break limit was never hit, the heap's top is the process break, every live block lies below
      it, every page from the image's end to the break is mapped, those that were not mapped before are
      present, writable and open to user mode in both entries, and frames still have one use each. */
  lemma HeapIsBacked(t: Task, dirs: set<nat>, shared: set<nat>, cs: seq<UserCall>)
    requires Fresh(t, dirs, shared)
    requires var b := BackingOf(t, dirs, shared); TaskInv(t, b) ==> LegalRun(t, b, cs)
    ensures var b := BackingOf(t, dirs, shared);
      && TaskInv(t, b)
      && var u := Run(t, b, cs);
      && u.proc.refusals == 0 && Spaces(u.proc.m, dirs, shared)
      && (u.initialized ==> u.sbrkTop == u.proc.brk && AllBelow(u.h.live, u.heapBase, u.proc.brk))
      && (u.initialized ==> u.heapBase == t.proc.image + 0x1_0000 && |u.h.bits| == 0x8_0000)
      && (u.initialized ==> Present(u.proc.m, t.proc.d, t.proc.image / PAGE_SIZE, PageEnd(u.proc.brk)))
      && (forall p: nat | t.proc.image / 4096 <= p < (u.proc.brk + 4095) / 4096 && u.initialized ::
            Page(t.proc.m, t.proc.d, p) == Unmapped ==> Open(u.proc.m, t.proc.d, p))
  {
    FreshInv(t, dirs, shared);
  }

  /** Address `a` is a byte of the live block `b`. */
  predicate ByteOf(t: Task, b: Block, a: nat) {
    t.heapBase + HEAP_BLOCK_SIZE * b.start <= a < t.heapBase + HEAP_BLOCK_SIZE * (b.start + b.len)
  }

  /** So a byte of a live block is below the break, in a page that is mapped. */
  lemma LiveByteIsPresent(u: Task, i: nat, a: nat)
    requires UserRange(u.proc) && Settled(u) && u.initialized
    requires Present(u.proc.m, u.proc.d, u.proc.image / PAGE_SIZE, PageEnd(u.proc.brk))
    requires i < |u.h.live| && ByteOf(u, u.h.live[i], a)
    ensures a < u.proc.brk && PageAt(u.proc.m, u.proc.d, Di(a), Ti(a)) != Unmapped
  {
    assert a / PAGE_SIZE < PageEnd(u.proc.brk);
    SamePage(a);
    assert Page(u.proc.m, u.proc.d, a / PAGE_SIZE) != Unmapped;
  }

  lemma SamePage(a: nat)
    requires a < 0xC000_0000
    ensures Di(a / PAGE_SIZE * PAGE_SIZE) == Di(a) && Ti(a / PAGE_SIZE * PAGE_SIZE) == Ti(a)
  {
  }

  // ---------------------------------------------------------------- what live blocks hold

  /** Block `b` is live at the start and after every call. */
  ghost predicate StaysLive(t: Task, k: Backing, b: Block, cs: seq<UserCall>)
    requires TaskInv(t, k) && LegalRun(t, k, cs)
    decreases |cs|
  {
    b in t.h.live && (cs == [] || (CallKeeps(t, k, cs[0]); StaysLive(Call(t, cs[0]), k, b, cs[1..])))
  }

  /** What was stored last at word `w` of the heap, or else `v`. */
  function LastStored(v: nat, w: nat, cs: seq<UserCall>): nat
    decreases |cs|
  {
    if cs == [] then v
    else LastStored(if cs[0].StoreCall? && cs[0].w == w then cs[0].v else v, w, cs[1..])
  }

  lemma CallKeepsWord(t: Task, k: Backing, c: UserCall, b: Block, w: nat)
    requires TaskInv(t, k) && Legal(t, c) && b in t.h.live && PayloadOf(b, w)
    ensures w < |t.h.mem| == |Call(t, c).h.mem|
    ensures Call(t, c).h.mem[w] == if c.StoreCall? && c.w == w then c.v else t.h.mem[w]
  {
    assert |t.h.mem| == WORDS_PER_BLOCK * |t.h.bits|;
    hide PagesBacked, Malloc, Free, Inv, BlocksFor, PageEnd;
    match c
    case MallocCall(size, mem) =>
      PayloadSurvives(t.h, b, w, BlocksFor(size), 0);
      MallocSettles(t, k, size);
    case FreeCall(i) => PayloadSurvives(t.h, b, w, 1, i);
    case StoreCall(x, v) =>
      PayloadSurvives(t.h, b, w, 1, 0);
      PayloadWriteKeepsInv(t.h, x, v);
  }

  /** Over every run of malloc, free and stores a payload word of a block that stays live holds what was
      last stored there. */
  lemma {:induction false} WordsHold(t: Task, k: Backing, cs: seq<UserCall>, b: Block, w: nat)
    requires TaskInv(t, k) && LegalRun(t, k, cs) && StaysLive(t, k, b, cs) && PayloadOf(b, w)
    ensures w < |t.h.mem| == |Run(t, k, cs).h.mem|
    ensures Run(t, k, cs).h.mem[w] == LastStored(t.h.mem[w], w, cs)
    decreases |cs|
  {
    hide Call, Settled, TaskPages, Inv;
    if cs == [] {
      NothingStored(t, k, b, w);
    } else {
      CallKeepsWord(t, k, cs[0], b, w);
      CallKeeps(t, k, cs[0]);
      WordsHold(Call(t, cs[0]), k, cs[1..], b, w);
    }
  }

  lemma NothingStored(t: Task, k: Backing, b: Block, w: nat)
    requires TaskInv(t, k) && b in t.h.live && PayloadOf(b, w)
    ensures w < |t.h.mem|
  {
    PayloadSurvives(t.h, b, w, 1, 0);
  }
}
