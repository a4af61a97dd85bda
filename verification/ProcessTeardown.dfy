/** The whole life of a user process's address space: what its termination releases is enough. */
module ProcessTeardown {
  import opened PageEntries
  import opened PageTables
  import opened Ownership
  import opened AddressSpaces
  import opened Teardown
  import opened BorrowedPage
  import UserHeap

  // ---------------------------------------------------------------- what is mapped was asked for

  predicate OnPage(va: nat, i: nat, j: nat) { Di(va) == i && Ti(va) == j }

  ghost predicate Taken(ops: seq<LifeOp>, i: nat, j: nat) {
    exists k :: 0 <= k < |ops| && ops[k].Take? && OnPage(ops[k].va, i, j)
  }

  lemma TakenLater(ops: seq<LifeOp>, i: nat, j: nat)
    requires ops != [] && Taken(ops[1..], i, j)
    ensures Taken(ops, i, j)
  {
    var k :| 0 <= k < |ops[1..]| && ops[1..][k].Take? && OnPage(ops[1..][k].va, i, j);
    assert ops[k + 1] == ops[1..][k];
  }

  /** A page that is mapped in the end was mapped at the start or has been asked for. */
  lemma {:induction false} MappedWasTaken(m: Machine, dirs: set<nat>, shared: set<nat>, d: nat, ops: seq<LifeOp>,
                                          i: nat, j: nat)
    requires Spaces(m, dirs, shared) && d in dirs && Legal(ops)
    ensures PageAt(LiveAll(m, d, ops), d, i, j) != Unmapped ==> PageAt(m, d, i, j) != Unmapped || Taken(ops, i, j)
    decreases |ops|
  {
    hide Spaces;
    if ops != [] {
      OneKeeps(m, dirs, shared, d, ops[0], i, j);
      MappedWasTaken(Live1(m, d, ops[0]), dirs, shared, d, ops[1..], i, j);
      if Taken(ops[1..], i, j) {
        TakenLater(ops, i, j);
      }
    }
  }

  lemma OneKeeps(m: Machine, dirs: set<nat>, shared: set<nat>, d: nat, op: LifeOp, i: nat, j: nat)
    requires Spaces(m, dirs, shared) && d in dirs && !KernelSlot(Di(op.va))
    ensures Spaces(Live1(m, d, op), dirs, shared)
    ensures PageAt(Live1(m, d, op), d, i, j) != Unmapped ==>
      PageAt(m, d, i, j) != Unmapped || (op.Take? && OnPage(op.va, i, j))
  {
    if op.Take? {
      AllocVirtEffect(m, dirs, shared, true, d, op.va, op.pdeFlags, op.pteFlags);
      AllocKeeps(m, dirs, shared, d, op.va, op.pdeFlags, op.pteFlags);
    } else {
      FreeVirtEffect(m, dirs, shared, d, op.va);
      FreeKeeps(m, dirs, shared, d, op.va);
    }
  }

  // ---------------------------------------------------------------- releasing it all

  lemma {:induction false} LiveTwice(m: Machine, d: nat, ops: seq<LifeOp>, more: seq<LifeOp>)
    ensures LiveAll(m, d, ops + more) == LiveAll(LiveAll(m, d, ops), d, more)
    decreases |ops|
  {
    if ops == [] {
      assert ops + more == more;
    } else {
      assert (ops + more)[1..] == ops[1..] + more;
      LiveTwice(Live1(m, d, ops[0]), d, ops[1..], more);
    }
  }

  ghost predicate Released(gives: seq<LifeOp>, va: nat) {
    exists l :: 0 <= l < |gives| && OnPage(gives[l].va, Di(va), Ti(va))
  }

  /** Every page of its own that is mapped is among those released. */
  ghost predicate Covers(n: Machine, d: nat, gives: seq<LifeOp>) {
    forall i: nat, j: nat | !KernelSlot(i) && PageAt(n, d, i, j) != Unmapped ::
      exists l :: 0 <= l < |gives| && Di(gives[l].va) == i && Ti(gives[l].va) == j
  }

  /** What is left is what was mapped and not released. */
  lemma NothingIsLeftIff(n: Machine, dirs: set<nat>, shared: set<nat>, d: nat, gives: seq<LifeOp>)
    requires Spaces(n, dirs, shared) && d in dirs && Legal(gives) && forall l :: 0 <= l < |gives| ==> gives[l].Give?
    ensures NoPages(LiveAll(n, d, gives), d) <==> Covers(n, d, gives)
  {
    hide Spaces;
    forall i: nat, j: nat
      ensures PageAt(LiveAll(n, d, gives), d, i, j)
           == if exists l :: 0 <= l < |gives| && Di(gives[l].va) == i && Ti(gives[l].va) == j then Unmapped
              else PageAt(n, d, i, j)
    {
      ReleasesUnmap(n, dirs, shared, d, gives, i, j);
    }
  }

  /** A space that is released and then destroyed gives back all it took if and only if the release
      reaches every page that was mapped. */
  lemma ReleasedGivesAllBackIff(m: Machine, n: Machine, dirs: set<nat>, shared: set<nat>, d: nat, gives: seq<LifeOp>)
    requires Hosts(m, n, dirs, shared, d) && Legal(gives) && forall l :: 0 <= l < |gives| ==> gives[l].Give?
    ensures var r := DestroySpace(LiveAll(n, d, gives), d);
            && (r.used == m.used && r.counter == m.counter <==> Covers(n, d, gives))
            && Spaces(r, dirs, shared)
  {
    hide Spaces, Holds, NoPages, Covers;
    NothingIsLeftIff(n, dirs + {d}, shared, d, gives);
    LifeHosts(m, n, dirs, shared, d, gives);
    DestroyLeaves(m, LiveAll(n, d, gives), dirs, shared, d);
    DestroyGivesAllBackIff(m, LiveAll(n, d, gives), dirs, shared, d);
  }

  /** A new address space has nothing mapped outside the kernel slots. */
  lemma NewSpaceIsEmpty(m: Machine, dirs: set<nat>, shared: set<nat>, c: nat)
    requires Spaces(m, dirs, shared) && c in dirs && CreateSpace(m, c).1 != 0
    ensures var (n, d) := CreateSpace(m, c); NoPages(n, d)
  {
    CreatePdirEffect(m, dirs, shared, true);
    PresentFlags(ZERO, 0);
    var (m1, d) := CreatePdir(m);
    assert WellFormed(m1) && d < |m1.mem|;
  }

  /** Every page outside the kernel slots that is mapped was asked for. */
  ghost predicate AskedFor(n: Machine, d: nat, ops: seq<LifeOp>) {
    forall i: nat, j: nat | !KernelSlot(i) && PageAt(n, d, i, j) != Unmapped :: Taken(ops, i, j)
  }

  /** createProcess: a new space with the stack of its creator lent to it while the program is loaded.
      Afterwards only pages that were asked for are mapped. */
  lemma CreationHosts(m: Machine, dirs: set<nat>, shared: set<nat>, c: nat,
                      frame: nat, va: nat, pdeFlags: bv12, pteFlags: bv12, loading: seq<LifeOp>)
    requires Spaces(m, dirs, shared) && c in dirs && CreateSpace(m, c).1 != 0
    requires var (m1, d) := CreateSpace(m, c); EnsureTable(m1, d, Di(va), pdeFlags).1
    requires !KernelSlot(Di(va)) && Legal(loading)
    requires forall k :: 0 <= k < |loading| ==> OffPage(loading[k], Di(va), Ti(va))
    ensures var (m1, d) := CreateSpace(m, c);
      var u := Loan(m1, d, frame, va, pdeFlags, pteFlags, loading);
      Hosts(m, u, dirs, shared, d) && AskedFor(u, d, loading)
  {
    hide Spaces, Holds, EnsureTable, Loan, CreateSpace;
    var (m1, d) := CreateSpace(m, c);
    var i, j := Di(va), Ti(va);
    CreateHosts(m, dirs, shared, c);
    NewSpaceIsEmpty(m, dirs, shared, c);
    TableHosts(m, m1, dirs, shared, d, i, pdeFlags);
    var r := EnsureTable(m1, d, i, pdeFlags).0;
    MappedWasTaken(r, dirs + {d}, shared, d, loading, i, j);
    assert !Taken(loading, i, j);
    LoanHosts(m, m1, dirs, shared, d, frame, va, pdeFlags, pteFlags, loading);
    var u := Loan(m1, d, frame, va, pdeFlags, pteFlags, loading);
    forall k: nat, l: nat | !KernelSlot(k) && PageAt(u, d, k, l) != Unmapped ensures Taken(loading, k, l) {
      MappedWasTaken(r, dirs + {d}, shared, d, loading, k, l);
    }
  }

  // ---------------------------------------------------------------- what termination releases

  /** A loop over the pages from `from` up to `to`. */
  function ReleaseRange(from: nat, to: nat): (r: seq<LifeOp>)
    requires from <= to
    ensures forall k :: 0 <= k < |r| ==> r[k] == Give(from + PAGE_SIZE * k)
  {
    seq((to - from + PAGE_SIZE - 1) / PAGE_SIZE, k requires k >= 0 => Give(from + PAGE_SIZE * k))
  }

  function ReleaseStacks(stacks: seq<nat>): (r: seq<LifeOp>)
    ensures |r| == |stacks| && forall k :: 0 <= k < |r| ==> r[k] == Give(stacks[k])
  {
    seq(|stacks|, k requires 0 <= k < |stacks| => Give(stacks[k]))
  }

  function RoundedUp(size: nat): (r: nat)
    ensures r >= size
  {
    if size % PAGE_SIZE != 0 then size + (PAGE_SIZE - size % PAGE_SIZE) else size
  }

  /** The free_virt calls of terminateProcessById: the image, then 1 GB for the break, then the stack
      of each thread; `stacks` are the addresses of the stack pages. */
  function TerminationReleases(imageBase: nat, imageSize: nat, stacks: seq<nat>): seq<LifeOp> {
    var fileSize := RoundedUp(imageSize);
    ReleaseRange(imageBase, imageBase + fileSize)
      + ReleaseRange(imageBase + fileSize, imageBase + fileSize + UserHeap.SBRK_LIM) + ReleaseStacks(stacks)
  }

  /** With those of the reaps, which release the kernel stack of each thread. */
  lemma AllReleases(imageBase: nat, imageSize: nat, stacks: seq<nat>, kernelStacks: seq<nat>)
    ensures TerminationReleases(imageBase, imageSize, stacks) + ReleaseStacks(kernelStacks)
         == TerminationReleases(imageBase, imageSize, stacks + kernelStacks)
  {
    assert ReleaseStacks(stacks) + ReleaseStacks(kernelStacks) == ReleaseStacks(stacks + kernelStacks);
  }

  /** Where a process has pages of its own: in its image, below its break, or on a stack page. */
  ghost predicate OwnPage(imageBase: nat, imageSize: nat, stacks: seq<nat>, va: nat) {
    || imageBase <= va < imageBase + imageSize + UserHeap.SBRK_LIM
    || exists k :: 0 <= k < |stacks| && OnPage(stacks[k], Di(va), Ti(va))
  }

  predicate UserSpace(imageBase: nat, imageSize: nat, stacks: seq<nat>) {
    && imageBase % PAGE_SIZE == 0
    && 0x40_0000 <= imageBase && imageBase + RoundedUp(imageSize) + UserHeap.SBRK_LIM <= 0xC000_0000
    && forall k :: 0 <= k < |stacks| ==> !KernelSlot(Di(stacks[k]))
  }

  lemma RangeReleases(from: nat, to: nat, va: nat)
    requires from % PAGE_SIZE == 0 && from <= va < to <= 0xC000_0000
    ensures Released(ReleaseRange(from, to), va)
  {
    var r, k := ReleaseRange(from, to), (va - from) / PAGE_SIZE;
    assert k < |r| && from + PAGE_SIZE * k == va / PAGE_SIZE * PAGE_SIZE;
    UserHeap.SamePage(va);
    assert OnPage(r[k].va, Di(va), Ti(va));
  }

  lemma ReleasedInPart(a: seq<LifeOp>, b: seq<LifeOp>, c: seq<LifeOp>, va: nat)
    requires Released(a, va) || Released(b, va) || Released(c, va)
    ensures Released(a + b + c, va)
  {
    var all := a + b + c;
    if Released(a, va) {
      var l :| 0 <= l < |a| && OnPage(a[l].va, Di(va), Ti(va));
      assert all[l] == a[l];
    } else if Released(b, va) {
      var l :| 0 <= l < |b| && OnPage(b[l].va, Di(va), Ti(va));
      assert all[|a| + l] == b[l];
    } else {
      var l :| 0 <= l < |c| && OnPage(c[l].va, Di(va), Ti(va));
      assert all[|a| + |b| + l] == c[l];
    }
  }

  lemma RangeIsLegal(from: nat, to: nat)
    requires 0x40_0000 <= from <= to <= 0xC000_0000 && from % PAGE_SIZE == 0 && to % PAGE_SIZE == 0
    ensures Legal(ReleaseRange(from, to))
  {
    var r := ReleaseRange(from, to);
    forall k | 0 <= k < |r| ensures !KernelSlot(Di(r[k].va)) {
      assert 0x40_0000 <= r[k].va < 0xC000_0000;
    }
  }

  lemma StackReleases(stacks: seq<nat>, k: nat, va: nat)
    requires k < |stacks| && OnPage(stacks[k], Di(va), Ti(va))
    ensures Released(ReleaseStacks(stacks), va)
  {
    assert OnPage(ReleaseStacks(stacks)[k].va, Di(va), Ti(va));
  }

  /** The loops of terminateProcessById reach every page of its own that the process can have. */
  lemma TerminationReleasesEveryPage(imageBase: nat, imageSize: nat, stacks: seq<nat>, va: nat)
    requires UserSpace(imageBase, imageSize, stacks) && OwnPage(imageBase, imageSize, stacks, va)
    ensures Released(TerminationReleases(imageBase, imageSize, stacks), va)
  {
    hide Released, ReleaseRange, ReleaseStacks, OnPage, KernelSlot;
    var mid := imageBase + RoundedUp(imageSize);
    if imageBase <= va < mid {
      RangeReleases(imageBase, mid, va);
    } else if mid <= va < mid + UserHeap.SBRK_LIM {
      RangeReleases(mid, mid + UserHeap.SBRK_LIM, va);
    } else {
      var k :| 0 <= k < |stacks| && OnPage(stacks[k], Di(va), Ti(va));
      StackReleases(stacks, k, va);
    }
    ReleasedInPart(ReleaseRange(imageBase, mid), ReleaseRange(mid, mid + UserHeap.SBRK_LIM), ReleaseStacks(stacks), va);
  }

  /** None of them touches a kernel slot, and each only releases. */
  lemma TerminationIsLegal(imageBase: nat, imageSize: nat, stacks: seq<nat>)
    requires UserSpace(imageBase, imageSize, stacks)
    ensures var gives := TerminationReleases(imageBase, imageSize, stacks);
      Legal(gives) && forall l :: 0 <= l < |gives| ==> gives[l].Give?
  {
    hide KernelSlot;
    var mid := imageBase + RoundedUp(imageSize);
    RangeIsLegal(imageBase, mid);
    RangeIsLegal(mid, mid + UserHeap.SBRK_LIM);
    LegalTogether(ReleaseRange(imageBase, mid), ReleaseRange(mid, mid + UserHeap.SBRK_LIM), ReleaseStacks(stacks));
  }

  lemma LegalTogether(a: seq<LifeOp>, b: seq<LifeOp>, c: seq<LifeOp>)
    requires Legal(a) && Legal(b) && Legal(c)
    ensures Legal(a + b + c)
  {
  }

  /** The pages that inc_proc_brk asks for are such pages, whatever the heap did before. */
  lemma HeapPagesAreOwn(p: UserHeap.Process, imageBase: nat, imageSize: nat, stacks: seq<nat>, inc: nat, n: nat)
    requires p.image == imageBase + imageSize <= p.brk && imageBase % PAGE_SIZE == 0
    requires p.brk + inc <= p.image + 0x4000_0000 && p.brk / PAGE_SIZE <= n < UserHeap.PageEnd(p.brk + inc)
    ensures OwnPage(imageBase, imageSize, stacks, n * PAGE_SIZE)
  {
  }

  /** The life of a user process: its address space is created, with the creator's stack lent to it while
      it is loaded; any pages outside the kernel slots are mapped and unmapped; terminateProcessById
      releases what it releases, and each reap the kernel stack of its thread; the last reap destroys the
      space. Then the frame bitmap and its counter are as they were before if and only if every page that
      is mapped when it is terminated is one of those that are released. */
  lemma ProcessLifeGivesAllBackIff(m: Machine, dirs: set<nat>, shared: set<nat>, c: nat,
                                   frame: nat, va: nat, pdeFlags: bv12, pteFlags: bv12,
                                   loading: seq<LifeOp>, ops: seq<LifeOp>,
                                   imageBase: nat, imageSize: nat, stacks: seq<nat>, kernelStacks: seq<nat>)
    requires Spaces(m, dirs, shared) && c in dirs && CreateSpace(m, c).1 != 0
    requires var (m1, d) := CreateSpace(m, c); EnsureTable(m1, d, Di(va), pdeFlags).1
    requires !KernelSlot(Di(va)) && Legal(loading) && Legal(ops)
    requires forall k :: 0 <= k < |loading| ==> OffPage(loading[k], Di(va), Ti(va))
    requires UserSpace(imageBase, imageSize, stacks + kernelStacks)
    ensures var (m1, d) := CreateSpace(m, c);
            var n := LiveAll(Loan(m1, d, frame, va, pdeFlags, pteFlags, loading), d, ops);
            var gives := TerminationReleases(imageBase, imageSize, stacks) + ReleaseStacks(kernelStacks);
            var r := DestroySpace(LiveAll(n, d, gives), d);
            && (r.used == m.used && r.counter == m.counter <==> Covers(n, d, gives))
            && Hosts(m, n, dirs, shared, d) && AskedFor(n, d, loading + ops) && Spaces(r, dirs, shared)
  {
    hide Spaces, TerminationReleases, CreateSpace, EnsureTable, Hosts, Covers, Loan, OffPage, AskedFor;
    var (m1, d) := CreateSpace(m, c);
    AllReleases(imageBase, imageSize, stacks, kernelStacks);
    TerminationIsLegal(imageBase, imageSize, stacks + kernelStacks);
    CreationHosts(m, dirs, shared, c, frame, va, pdeFlags, pteFlags, loading);
    var u := Loan(m1, d, frame, va, pdeFlags, pteFlags, loading);
    AskedForLater(m, u, dirs, shared, d, loading, ops);
    LifeHosts(m, u, dirs, shared, d, ops);
    ReleasedGivesAllBackIff(m, LiveAll(u, d, ops), dirs, shared, d,
      TerminationReleases(imageBase, imageSize, stacks + kernelStacks));
  }

  lemma AskedForLater(m: Machine, u: Machine, dirs: set<nat>, shared: set<nat>, d: nat,
                      loading: seq<LifeOp>, ops: seq<LifeOp>)
    requires Hosts(m, u, dirs, shared, d) && AskedFor(u, d, loading) && Legal(ops)
    ensures AskedFor(LiveAll(u, d, ops), d, loading + ops)
  {
    hide Spaces, Holds;
    forall i: nat, j: nat | !KernelSlot(i) && PageAt(LiveAll(u, d, ops), d, i, j) != Unmapped
      ensures Taken(loading + ops, i, j)
    {
      MappedWasTaken(u, dirs + {d}, shared, d, ops, i, j);
      if Taken(loading, i, j) {
        var k :| 0 <= k < |loading| && loading[k].Take? && OnPage(loading[k].va, i, j);
        assert (loading + ops)[k] == loading[k];
      } else {
        var k :| 0 <= k < |ops| && ops[k].Take? && OnPage(ops[k].va, i, j);
        assert (loading + ops)[|loading| + k] == ops[k];
      }
    }
  }

  /** It is so when pages are only asked for where a process has pages of its own. */
  lemma ProcessLifeGivesAllBack(m: Machine, dirs: set<nat>, shared: set<nat>, c: nat,
                                frame: nat, va: nat, pdeFlags: bv12, pteFlags: bv12,
                                loading: seq<LifeOp>, ops: seq<LifeOp>,
                                imageBase: nat, imageSize: nat, stacks: seq<nat>, kernelStacks: seq<nat>)
    requires Spaces(m, dirs, shared) && c in dirs && CreateSpace(m, c).1 != 0
    requires var (m1, d) := CreateSpace(m, c); EnsureTable(m1, d, Di(va), pdeFlags).1
    requires !KernelSlot(Di(va)) && Legal(loading) && Legal(ops)
    requires forall k :: 0 <= k < |loading| ==> OffPage(loading[k], Di(va), Ti(va))
    requires UserSpace(imageBase, imageSize, stacks + kernelStacks)
    requires forall k :: 0 <= k < |loading + ops| && (loading + ops)[k].Take? ==>
      OwnPage(imageBase, imageSize, stacks + kernelStacks, (loading + ops)[k].va)
    ensures var (m1, d) := CreateSpace(m, c);
            var n := LiveAll(Loan(m1, d, frame, va, pdeFlags, pteFlags, loading), d, ops);
            var gives := TerminationReleases(imageBase, imageSize, stacks) + ReleaseStacks(kernelStacks);
            var r := DestroySpace(LiveAll(n, d, gives), d);
            r.used == m.used && r.counter == m.counter && Spaces(r, dirs, shared)
  {
    hide Spaces, TerminationReleases, CreateSpace, EnsureTable, Hosts, Loan, OffPage, OwnPage, UserSpace, DestroySpace;
    ProcessLifeGivesAllBackIff(m, dirs, shared, c, frame, va, pdeFlags, pteFlags, loading, ops,
      imageBase, imageSize, stacks, kernelStacks);
    AllReleases(imageBase, imageSize, stacks, kernelStacks);
    var (m1, d) := CreateSpace(m, c);
    var n := LiveAll(Loan(m1, d, frame, va, pdeFlags, pteFlags, loading), d, ops);
    var gives := TerminationReleases(imageBase, imageSize, stacks + kernelStacks);
    forall i: nat, j: nat | !KernelSlot(i) && PageAt(n, d, i, j) != Unmapped
      ensures exists l :: 0 <= l < |gives| && Di(gives[l].va) == i && Ti(gives[l].va) == j
    {
      var k :| 0 <= k < |loading + ops| && (loading + ops)[k].Take? && OnPage((loading + ops)[k].va, i, j);
      TerminationReleasesEveryPage(imageBase, imageSize, stacks + kernelStacks, (loading + ops)[k].va);
    }
  }

  lemma SamePageNumber(a: nat, b: nat)
    requires a < 0x1_0000_0000 && b < 0x1_0000_0000 && OnPage(a, Di(b), Ti(b))
    ensures a / PAGE_SIZE == b / PAGE_SIZE
  {
    assert a / 0x40_0000 < 1024 && b / 0x40_0000 < 1024;
    assert a / PAGE_SIZE == 1024 * (a / 0x40_0000) + a / PAGE_SIZE % 1024;
    assert b / PAGE_SIZE == 1024 * (b / 0x40_0000) + b / PAGE_SIZE % 1024;
  }

  lemma InRange(from: nat, to: nat, k: nat, va: nat)
    requires from % PAGE_SIZE == 0 && from <= to <= 0xC000_0000 && to % PAGE_SIZE == 0 && va < 0x1_0000_0000
    requires k < |ReleaseRange(from, to)| && OnPage(ReleaseRange(from, to)[k].va, Di(va), Ti(va))
    ensures from <= va < to
  {
    assert ReleaseRange(from, to)[k].va == from + PAGE_SIZE * k < to;
    hide OnPage;
    SamePageNumber(from + PAGE_SIZE * k, va);
  }

  lemma ReleasedIffInRange(imageBase: nat, imageSize: nat, stacks: seq<nat>, va: nat)
    requires UserSpace(imageBase, imageSize, stacks) && va < 0x1_0000_0000
    ensures Released(TerminationReleases(imageBase, imageSize, stacks), va) <==>
      || imageBase <= va < imageBase + RoundedUp(imageSize) + UserHeap.SBRK_LIM
      || exists k :: 0 <= k < |stacks| && OnPage(stacks[k], Di(va), Ti(va))
  {
    hide OnPage, KernelSlot, ReleaseRange, ReleaseStacks;
    var mid, end := imageBase + RoundedUp(imageSize), imageBase + RoundedUp(imageSize) + UserHeap.SBRK_LIM;
    var a, b, c := ReleaseRange(imageBase, mid), ReleaseRange(mid, end), ReleaseStacks(stacks);
    if Released(a + b + c, va) {
      var l :| 0 <= l < |a + b + c| && OnPage((a + b + c)[l].va, Di(va), Ti(va));
      if l < |a| {
        InRange(imageBase, mid, l, va);
      } else if l < |a| + |b| {
        InRange(mid, end, l - |a|, va);
      } else {
        assert (a + b + c)[l] == c[l - |a| - |b|] == Give(stacks[l - |a| - |b|]);
      }
    } else if imageBase <= va < mid {
      RangeReleases(imageBase, mid, va);
      ReleasedInPart(a, b, c, va);
    } else if mid <= va < end {
      RangeReleases(mid, end, va);
      ReleasedInPart(a, b, c, va);
    } else if exists k :: 0 <= k < |stacks| && OnPage(stacks[k], Di(va), Ti(va)) {
      var k :| 0 <= k < |stacks| && OnPage(stacks[k], Di(va), Ti(va));
      StackReleases(stacks, k, va);
      ReleasedInPart(a, b, c, va);
    }
  }

  lemma RoundedUpIs(size: nat)
    ensures RoundedUp(size) == (size + 0xFFF) / 0x1000 * 0x1000
  {
  }

  /** Exactly these pages are released: one anywhere else, as the buffer of a window, stays mapped, and if
      it is, a frame stays marked. */
  lemma TerminationReleasesIff(imageBase: nat, imageSize: nat, stacks: seq<nat>, va: nat)
    requires UserSpace(imageBase, imageSize, stacks) && va < 0x1_0000_0000
    ensures Released(TerminationReleases(imageBase, imageSize, stacks), va) <==>
      || imageBase <= va < imageBase + (imageSize + 0xFFF) / 0x1000 * 0x1000 + 0x4000_0000
      || exists k :: 0 <= k < |stacks| && OnPage(stacks[k], Di(va), Ti(va))
  {
    hide Released, TerminationReleases, RoundedUp, UserSpace;
    ReleasedIffInRange(imageBase, imageSize, stacks, va);
    RoundedUpIs(imageSize);
  }
}
