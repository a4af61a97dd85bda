/** What an address space takes from the frame bitmap, and that its end gives all of it back. */
module Teardown {
  import opened Bitmaps
  import opened PageEntries
  import opened PageTables
  import opened Ownership
  import opened AddressSpaces

  // ---------------------------------------------------------------- runs over all address spaces

  datatype SpaceOp =
    | Create(c: nat)                                        // create_address_space, `c` loaded
    | Alloc(d: nat, va: nat, pdeFlags: bv12, pteFlags: bv12) // vmmngr_alloc_virt
    | Release(d: nat, va: nat)                              // vmmngr_free_virt
    | Destroy(d: nat)                                       // clear_kernel_space, vmmngr_free_pdir

  datatype World = World(m: Machine, dirs: set<nat>)

  ghost predicate Can(w: World, op: SpaceOp) {
    match op
    case Create(c) => c in w.dirs && CreateSpace(w.m, c).1 != 0
    case Alloc(d, va, _, _) => d in w.dirs && !KernelSlot(Di(va))
    case Release(d, va) => d in w.dirs && !KernelSlot(Di(va))
    case Destroy(d) => d in w.dirs
  }

  ghost function Perform(w: World, shared: set<nat>, op: SpaceOp): (v: World)
    requires Spaces(w.m, w.dirs, shared) && Can(w, op)
    ensures Spaces(v.m, v.dirs, shared)
  {
    match op
    case Create(c) =>
      CreateSpaceKeeps(w.m, w.dirs, shared, c);
      World(CreateSpace(w.m, c).0, w.dirs + {CreateSpace(w.m, c).1})
    case Alloc(d, va, pf, tf) =>
      AllocKeeps(w.m, w.dirs, shared, d, va, pf, tf);
      World(AllocVirt(w.m, d, va, pf, tf), w.dirs)
    case Release(d, va) =>
      FreeKeeps(w.m, w.dirs, shared, d, va);
      World(FreeVirt(w.m, d, va), w.dirs)
    case Destroy(d) =>
      DestroyKeeps(w.m, w.dirs, shared, d);
      World(DestroySpace(w.m, d), w.dirs - {d})
  }

  ghost predicate CanRun(w: World, shared: set<nat>, ops: seq<SpaceOp>)
    requires Spaces(w.m, w.dirs, shared)
    decreases |ops|
  {
    ops == [] || (Can(w, ops[0]) && CanRun(Perform(w, shared, ops[0]), shared, ops[1..]))
  }

  ghost function Run(w: World, shared: set<nat>, ops: seq<SpaceOp>): (v: World)
    requires Spaces(w.m, w.dirs, shared) && CanRun(w, shared, ops)
    ensures Spaces(v.m, v.dirs, shared)
    decreases |ops|
  {
    if ops == [] then w else Run(Perform(w, shared, ops[0]), shared, ops[1..])
  }

  /** In every reachable state the frames that serve as directories, private tables and their pages
      are distinct and marked, and a frame the allocator would hand out serves as none of them. */
  lemma FramesHaveOneUse(w: World, shared: set<nat>, ops: seq<SpaceOp>)
    requires Spaces(w.m, w.dirs, shared) && CanRun(w, shared, ops)
    ensures var v := Run(w, shared, ops);
      && (forall u, x | Live(v.m, v.dirs, shared, true, u) && Live(v.m, v.dirs, shared, true, x) && u != x ::
            FrameOf(v.m, u) != FrameOf(v.m, x))
      && (forall u | Live(v.m, v.dirs, shared, true, u) :: Marked(v.m, FrameOf(v.m, u)) && FrameOf(v.m, u) !in shared)
      && var f := AllocFrame(v.m).1;
         f != 0 ==> f !in shared && forall u | Live(v.m, v.dirs, shared, true, u) :: FrameOf(v.m, u) != f
  {
    var v := Run(w, shared, ops);
    if AllocFrame(v.m).1 != 0 {
      UnmarkedIsUnused(v.m, v.dirs, shared, true, AllocFrame(v.m).1);
    }
  }

  // ---------------------------------------------------------------- what one space holds

  ghost predicate UsedBy(m: Machine, shared: set<nat>, d: nat, f: nat) {
    exists u :: Live(m, {d}, shared, true, u) && FrameOf(m, u) == f
  }

  /** The bitmap is `base` and the frames of address space `d`, which `base` does not mark. */
  ghost predicate Holds(m: Machine, base: seq<bool>, shared: set<nat>, d: nat) {
    && |m.used| == |base|
    && forall f: nat | f < |base| ::
         m.used[f] == (base[f] || UsedBy(m, shared, d, f)) && !(base[f] && UsedBy(m, shared, d, f))
  }

  /** From `m` to `n` address space `d` only gains uses, with frames that were free. */
  ghost predicate Grows(m: Machine, n: Machine, shared: set<nat>, d: nat) {
    && |n.used| == |m.used|
    && (forall f :: 0 <= f < |m.used| && m.used[f] ==> n.used[f])
    && (forall u | Live(m, {d}, shared, true, u) :: Live(n, {d}, shared, true, u) && FrameOf(n, u) == FrameOf(m, u))
    && (forall u | Live(n, {d}, shared, true, u) && !Live(m, {d}, shared, true, u) ::
          FrameOf(n, u) < |m.used| && !m.used[FrameOf(n, u)])
    && (forall f: nat :: f < |m.used| && n.used[f] && !m.used[f] ==> UsedBy(n, shared, d, f))
  }

  lemma UsedByPersists(m: Machine, n: Machine, shared: set<nat>, d: nat, f: nat)
    requires Grows(m, n, shared, d) && UsedBy(m, shared, d, f)
    ensures UsedBy(n, shared, d, f)
  {
    var u :| Live(m, {d}, shared, true, u) && FrameOf(m, u) == f;
    assert Live(n, {d}, shared, true, u);
  }

  lemma GrowthHolds(m: Machine, n: Machine, base: seq<bool>, shared: set<nat>, d: nat)
    requires Holds(m, base, shared, d) && Grows(m, n, shared, d) && Own(n, {d}, shared, true)
    ensures Holds(n, base, shared, d)
  {
    forall f: nat | f < |base|
      ensures n.used[f] == (base[f] || UsedBy(n, shared, d, f)) && !(base[f] && UsedBy(n, shared, d, f))
    {
      if UsedBy(m, shared, d, f) {
        UsedByPersists(m, n, shared, d, f);
      } else if UsedBy(n, shared, d, f) {
        var u :| Live(n, {d}, shared, true, u) && FrameOf(n, u) == f;
        assert Marked(n, FrameOf(n, u));
        assert Live(m, {d}, shared, true, u) ==> FrameOf(m, u) == f;
      }
    }
  }

  lemma OwnOne(m: Machine, dirs: set<nat>, shared: set<nat>, d: nat)
    requires Own(m, dirs, shared, true) && d in dirs
    ensures Own(m, {d}, shared, true)
  {
    assert forall u | Live(m, {d}, shared, true, u) :: Live(m, dirs, shared, true, u);
  }

  lemma EnsureTableGrows(m: Machine, shared: set<nat>, d: nat, i: nat, flags: bv12)
    requires Own(m, {d}, shared, true) && i < PAGES_PER_TABLE && Private(m, shared, d, i)
    ensures Grows(m, EnsureTable(m, d, i, flags).0, shared, d)
  {
    var (n, ok) := EnsureTable(m, d, i, flags);
    EnsureTableEffect(m, {d}, shared, true, d, i, flags);
    assert Live(m, {d}, shared, true, Dir(d));
    if At(m, d, i).Present() {
      OldTableGrows(m, shared, d, i, flags);
    } else if ok {
      FreshTableGrows(m, shared, d, i, flags);
    }
  }

  lemma OldTableUses(m: Machine, shared: set<nat>, d: nat, i: nat, flags: bv12, u: Use)
    requires Own(m, {d}, shared, true) && At(m, d, i).Present()
    ensures var n := Put(m, d, i, At(m, d, i).AddAttrib(flags));
      && Live(n, {d}, shared, true, u) == Live(m, {d}, shared, true, u)
      && (Live(m, {d}, shared, true, u) ==> FrameOf(n, u) == FrameOf(m, u))
  {
    PresentFlags(At(m, d, i), flags);
    TablesAreNoDirectory(m, shared, d);
    hide Own, Entry.Present;
    var n := Put(m, d, i, At(m, d, i).AddAttrib(flags));
    forall k: nat ensures At(n, d, k).Present() == At(m, d, k).Present() && At(n, d, k).frame == At(m, d, k).frame {
    }
  }

  lemma TablesAreNoDirectory(m: Machine, shared: set<nat>, d: nat)
    requires Own(m, {d}, shared, true)
    ensures forall k: nat | At(m, d, k).Present() && At(m, d, k).frame !in shared :: At(m, d, k).frame != d
  {
    assert Live(m, {d}, shared, true, Dir(d));
    forall k: nat | At(m, d, k).Present() && At(m, d, k).frame !in shared ensures At(m, d, k).frame != d {
      assert Live(m, {d}, shared, true, TableOf(d, k));
    }
  }

  lemma OldTableGrows(m: Machine, shared: set<nat>, d: nat, i: nat, flags: bv12)
    requires Own(m, {d}, shared, true) && At(m, d, i).Present()
    ensures Grows(m, Put(m, d, i, At(m, d, i).AddAttrib(flags)), shared, d)
  {
    forall u {
      OldTableUses(m, shared, d, i, flags, u);
    }
  }

  lemma GrowsNot(m: Machine, shared: set<nat>, d: nat)
    ensures Grows(m, m, shared, d)
  {
  }

  /** One more use, of a frame that was free. */
  lemma GrowsBy(m: Machine, n: Machine, shared: set<nat>, d: nat, x: Use, f: nat)
    requires f < |m.used| && !m.used[f] && n.used == m.used[f := true]
    requires Live(n, {d}, shared, true, x) && FrameOf(n, x) == f
    requires forall u | Live(m, {d}, shared, true, u) :: Live(n, {d}, shared, true, u) && FrameOf(n, u) == FrameOf(m, u)
    requires forall u | Live(n, {d}, shared, true, u) :: u == x || Live(m, {d}, shared, true, u)
    ensures Grows(m, n, shared, d)
  {
    hide Live, FrameOf;
  }

  lemma FreshTableGrows(m: Machine, shared: set<nat>, d: nat, i: nat, flags: bv12)
    requires Own(m, {d}, shared, true) && i < PAGES_PER_TABLE
    requires !At(m, d, i).Present() && AllocFrame(m).1 != 0
    ensures Grows(m, EnsureTable(m, d, i, flags).0, shared, d)
  {
    var (m1, t) := AllocFrame(m);
    var entry := At(m, d, i).AddAttrib(PRESENT).SetFrame(t).AddAttrib(flags);
    var n := Put(Clear(m1, t), d, i, entry);
    UnmarkedIsUnused(m, {d}, shared, true, t);
    assert Live(m, {d}, shared, true, Dir(d));
    assert At(Clear(m1, t), d, i) == At(m, d, i);
    FreshEntry(At(m, d, i), t, flags);
    NewTable(m, {d}, shared, true, d, i, t, entry);
    forall u | Live(m, {d}, shared, true, u) ensures Live(n, {d}, shared, true, u) && FrameOf(n, u) == FrameOf(m, u) {
      if u.PageOf? {
        assert Live(m, {d}, shared, true, TableOf(d, u.i));
        assert FrameOf(m, TableOf(d, u.i)) != FrameOf(m, Dir(d));
      }
    }
    GrowsBy(m, n, shared, d, TableOf(d, i), t);
  }

  lemma OtherUsesStay(m: Machine, n: Machine, shared: set<nat>, d: nat, i: nat, j: nat, e: Entry, u: Use)
    requires Own(m, {d}, shared, true) && j < PAGES_PER_TABLE
    requires At(m, d, i).Present() && At(m, d, i).frame !in shared
    requires forall g: nat, k: nat :: At(n, g, k) == At(Put(m, At(m, d, i).frame, j, e), g, k)
    requires Live(m, {d}, shared, true, u) && u != PageOf(d, i, j)
    ensures Live(n, {d}, shared, true, u) && FrameOf(n, u) == FrameOf(m, u)
  {
    assert Live(m, {d}, shared, true, TableOf(d, i)) && Live(m, {d}, shared, true, Dir(d));
    if u.PageOf? && u.i != i {
      assert Live(m, {d}, shared, true, TableOf(d, u.i));
      assert FrameOf(m, TableOf(d, u.i)) != FrameOf(m, TableOf(d, i));
    }
  }

  lemma AllocPageGrows(m: Machine, shared: set<nat>, d: nat, i: nat, j: nat, flags: bv12)
    requires Own(m, {d}, shared, true) && j < PAGES_PER_TABLE
    requires At(m, d, i).Present() && At(m, d, i).frame !in shared && PageAt(m, d, i, j) == Unmapped
    ensures Grows(m, AllocPage(m, At(m, d, i).frame, j, flags), shared, d)
  {
    hide Own, Grows;
    var t := At(m, d, i).frame;
    var n := AllocPage(m, t, j, flags);
    var (m2, p) := AllocFrame(m);
    AllocPageEffect(m, {d}, shared, true, d, i, j, flags);
    if p == 0 {
      GrowsNot(m, shared, d);
    } else {
      var entry := At(m, t, j).SetFrame(p).AddAttrib(PRESENT).AddAttrib(flags);
      assert forall g: nat, k: nat :: At(n, g, k) == At(Put(m, t, j, entry), g, k);
      EntriesAfterPut(m, n, {d}, shared, true, d, i, j, entry);
      forall u | Live(m, {d}, shared, true, u) ensures Live(n, {d}, shared, true, u) && FrameOf(n, u) == FrameOf(m, u) {
        OtherUsesStay(m, n, shared, d, i, j, entry, u);
      }
      GrowsBy(m, n, shared, d, PageOf(d, i, j), p);
    }
  }

  /** alloc_virt marks exactly the frames that the address space gains. */
  lemma AllocHolds(m: Machine, base: seq<bool>, dirs: set<nat>, shared: set<nat>, d: nat, va: nat,
                   pdeFlags: bv12, pteFlags: bv12)
    requires Spaces(m, dirs, shared) && d in dirs && !KernelSlot(Di(va)) && Holds(m, base, shared, d)
    ensures Holds(AllocVirt(m, d, va, pdeFlags, pteFlags), base, shared, d)
  {
    OwnOne(m, dirs, shared, d);
    var i, j := Di(va), Ti(va);
    var (m1, ok) := EnsureTable(m, d, i, pdeFlags);
    var n := AllocVirt(m, d, va, pdeFlags, pteFlags);
    EnsureTableEffect(m, {d}, shared, true, d, i, pdeFlags);
    EnsureTableGrows(m, shared, d, i, pdeFlags);
    GrowthHolds(m, m1, base, shared, d);
    if ok && PageAt(m1, d, i, j) == Unmapped {
      AllocPageEffect(m1, {d}, shared, true, d, i, j, pteFlags);
      AllocPageGrows(m1, shared, d, i, j, pteFlags);
      GrowthHolds(m1, n, base, shared, d);
    }
  }

  /** free_virt unmarks exactly the frame that the address space loses. */
  lemma FreeHolds(m: Machine, base: seq<bool>, dirs: set<nat>, shared: set<nat>, d: nat, va: nat)
    requires Spaces(m, dirs, shared) && d in dirs && !KernelSlot(Di(va)) && Holds(m, base, shared, d)
    ensures Holds(FreeVirt(m, d, va), base, shared, d)
  {
    OwnOne(m, dirs, shared, d);
    var i, j := Di(va), Ti(va);
    var n := FreeVirt(m, d, va);
    FreeVirtEffect(m, {d}, shared, d, va);
    if PageAt(m, d, i, j) != Unmapped {
      var x := PageOf(d, i, j);
      assert Live(m, {d}, shared, true, x);
      var p := FrameOf(m, x);
      var e := At(m, At(m, d, i).frame, j).DelAttrib(PRESENT);
      assert forall g: nat, k: nat :: At(n, g, k) == At(Put(m, At(m, d, i).frame, j, e), g, k);
      EntriesAfterPut(m, n, {d}, shared, true, d, i, j, e);
      forall u | Live(m, {d}, shared, true, u) && u != x
        ensures Live(n, {d}, shared, true, u) && FrameOf(n, u) == FrameOf(m, u)
      {
        OtherUsesStay(m, n, shared, d, i, j, e, u);
      }
      forall f: nat | f < |base|
        ensures n.used[f] == (base[f] || UsedBy(n, shared, d, f)) && !(base[f] && UsedBy(n, shared, d, f))
      {
        UsedByAfterFree(m, n, shared, d, x, f);
      }
    }
  }

  lemma UsedByAfterFree(m: Machine, n: Machine, shared: set<nat>, d: nat, x: Use, f: nat)
    requires Own(m, {d}, shared, true) && Live(m, {d}, shared, true, x)
    requires forall u | Live(m, {d}, shared, true, u) && u != x ::
      Live(n, {d}, shared, true, u) && FrameOf(n, u) == FrameOf(m, u)
    requires forall u | Live(n, {d}, shared, true, u) ::
      u != x && Live(m, {d}, shared, true, u) && FrameOf(n, u) == FrameOf(m, u)
    ensures UsedBy(n, shared, d, f) <==> UsedBy(m, shared, d, f) && f != FrameOf(m, x)
  {
    if UsedBy(n, shared, d, f) {
      var u :| Live(n, {d}, shared, true, u) && FrameOf(n, u) == f;
      assert Live(m, {d}, shared, true, u);
    }
    if UsedBy(m, shared, d, f) && f != FrameOf(m, x) {
      var u :| Live(m, {d}, shared, true, u) && FrameOf(m, u) == f;
      assert Live(n, {d}, shared, true, u);
    }
  }

  // ---------------------------------------------------------------- a whole life

  lemma CreateHolds(m: Machine, dirs: set<nat>, shared: set<nat>, c: nat)
    requires Spaces(m, dirs, shared) && c in dirs && CreateSpace(m, c).1 != 0
    ensures var (n, d) := CreateSpace(m, c); d !in dirs && Holds(n, m.used, shared, d)
    ensures CreateSpace(m, c).0.counter - Used(CreateSpace(m, c).0.used) == m.counter - Used(m.used)
  {
    CreatePdirEffect(m, dirs, shared, true);
    var (n, d) := CreateSpace(m, c);
    PresentFlags(ZERO, 0);
    UsedAfterUpdate(m.used, d, true);
    CreateSpaceKeeps(m, dirs, shared, c);
    assert Live(n, {d}, shared, true, Dir(d));
    assert forall k: nat :: At(n, d, k).Present() ==> At(n, d, k).frame in shared;
    forall u | Live(n, {d}, shared, true, u) ensures u == Dir(d) {
      assert u.Dir? || At(n, d, u.i).Present();
    }
  }

  datatype LifeOp = Take(va: nat, pdeFlags: bv12, pteFlags: bv12) | Give(va: nat)

  ghost predicate Legal(ops: seq<LifeOp>) {
    forall k :: 0 <= k < |ops| ==> !KernelSlot(Di(ops[k].va))
  }

  ghost function Live1(m: Machine, d: nat, op: LifeOp): Machine {
    match op
    case Take(va, pf, tf) => AllocVirt(m, d, va, pf, tf)
    case Give(va) => FreeVirt(m, d, va)
  }

  ghost function LiveAll(m: Machine, d: nat, ops: seq<LifeOp>): Machine
    decreases |ops|
  {
    if ops == [] then m else LiveAll(Live1(m, d, ops[0]), d, ops[1..])
  }

  ghost function Drift(m: Machine): int { m.counter - Used(m.used) }

  lemma AllocFrameDrift(m: Machine)
    requires WellFormed(m)
    ensures Drift(AllocFrame(m).0) == Drift(m)
  {
    if AllocFrame(m).1 != 0 {
      UsedAfterUpdate(m.used, AllocFrame(m).1, true);
    }
  }

  /** alloc_virt and free_virt keep the counter and the bitmap in step. */
  lemma LifeDrift(m: Machine, dirs: set<nat>, shared: set<nat>, d: nat, op: LifeOp)
    requires Spaces(m, dirs, shared) && d in dirs && !KernelSlot(Di(op.va))
    ensures Drift(Live1(m, d, op)) == Drift(m)
  {
    if op.Take? {
      AllocFrameDrift(m);
      EnsureTableEffect(m, dirs, shared, true, d, Di(op.va), op.pdeFlags);
      AllocFrameDrift(EnsureTable(m, d, Di(op.va), op.pdeFlags).0);
    } else {
      FreeVirtEffect(m, dirs, shared, d, op.va);
      if PageAt(m, d, Di(op.va), Ti(op.va)) != Unmapped {
        var u := PageOf(d, Di(op.va), Ti(op.va));
        assert Live(m, dirs, shared, true, u);
        UsedAfterUpdate(m.used, FrameOf(m, u), false);
      }
    }
  }

  lemma {:induction false} LifeKeeps(m: Machine, base: seq<bool>, dirs: set<nat>, shared: set<nat>, d: nat,
                                     ops: seq<LifeOp>)
    requires Spaces(m, dirs, shared) && d in dirs && Legal(ops) && Holds(m, base, shared, d)
    ensures var n := LiveAll(m, d, ops);
            Spaces(n, dirs, shared) && Holds(n, base, shared, d) && Drift(n) == Drift(m)
    decreases |ops|
  {
    if ops != [] {
      var op := ops[0];
      LifeDrift(m, dirs, shared, d, op);
      if op.Take? {
        AllocKeeps(m, dirs, shared, d, op.va, op.pdeFlags, op.pteFlags);
        AllocHolds(m, base, dirs, shared, d, op.va, op.pdeFlags, op.pteFlags);
      } else {
        FreeKeeps(m, dirs, shared, d, op.va);
        FreeHolds(m, base, dirs, shared, d, op.va);
      }
      LifeKeeps(Live1(m, d, op), base, dirs, shared, d, ops[1..]);
    }
  }

  /** No page is mapped outside the kernel slots. */
  ghost predicate NoPages(m: Machine, d: nat) {
    forall i: nat, j: nat :: !KernelSlot(i) ==> PageAt(m, d, i, j) == Unmapped
  }

  /** free_virt on a list of addresses unmaps those pages and leaves the others mapped. */
  lemma {:induction false} ReleasesUnmap(
    m: Machine, dirs: set<nat>, shared: set<nat>, d: nat, ops: seq<LifeOp>, i: nat, j: nat)
    requires Spaces(m, dirs, shared) && d in dirs && Legal(ops) && forall k :: 0 <= k < |ops| ==> ops[k].Give?
    ensures PageAt(LiveAll(m, d, ops), d, i, j)
         == if exists k :: 0 <= k < |ops| && Di(ops[k].va) == i && Ti(ops[k].va) == j then Unmapped
            else PageAt(m, d, i, j)
    decreases |ops|
  {
    if ops != [] {
      var va := ops[0].va;
      FreeVirtEffect(m, dirs, shared, d, va);
      FreeKeeps(m, dirs, shared, d, va);
      ReleasesUnmap(FreeVirt(m, d, va), dirs, shared, d, ops[1..], i, j);
      assert forall k :: 1 <= k < |ops| ==> ops[k] == ops[1..][k - 1];
      if Di(va) == i && Ti(va) == j {
        assert Di(ops[0].va) == i;
      }
    }
  }

  /** Machine `n` is machine `m` with one more address space `d` that has taken all its frames from it. */
  ghost predicate Hosts(m: Machine, n: Machine, dirs: set<nat>, shared: set<nat>, d: nat) {
    d !in dirs && Spaces(n, dirs + {d}, shared) && Holds(n, m.used, shared, d) && Drift(n) == Drift(m)
  }

  /** A page outside the kernel slots is mapped to the frame. */
  ghost predicate PageFrame(n: Machine, d: nat, f: nat) {
    exists i: nat, j: nat :: !KernelSlot(i) && PageAt(n, d, i, j) == MappedTo(f)
  }

  /** Destroying the space gives back all it took but the frames of pages that are still mapped; every
      kernel table is still marked. */
  lemma DestroyLeaves(m: Machine, n: Machine, dirs: set<nat>, shared: set<nat>, d: nat)
    requires Hosts(m, n, dirs, shared, d)
    ensures var r := DestroySpace(n, d);
            && |r.used| == |m.used| && (forall f: nat | f < |m.used| :: r.used[f] == (m.used[f] || PageFrame(n, d, f)))
            && Drift(r) == Drift(m) && (forall f :: f in shared ==> Marked(r, f)) && Spaces(r, dirs, shared)
  {
    DestroyEffect(n, dirs + {d}, shared, d);
    DestroyKeeps(n, dirs + {d}, shared, d);
    assert dirs + {d} - {d} == dirs;
    forall f: nat | f < |m.used| ensures DestroySpace(n, d).used[f] == (m.used[f] || PageFrame(n, d, f)) {
      UsesOfSpace(n, dirs + {d}, shared, d, f);
    }
  }

  /** So it gives back exactly what it took, bitmap and counter, if and only if no page is mapped. */
  lemma DestroyGivesAllBackIff(m: Machine, n: Machine, dirs: set<nat>, shared: set<nat>, d: nat)
    requires Hosts(m, n, dirs, shared, d)
    ensures var r := DestroySpace(n, d); r.used == m.used && r.counter == m.counter <==> NoPages(n, d)
  {
    hide Spaces, Holds, DestroySpace;
    var r := DestroySpace(n, d);
    DestroyLeaves(m, n, dirs, shared, d);
    if NoPages(n, d) {
      assert forall f: nat :: !PageFrame(n, d, f);
      assert r.used == m.used;
    } else {
      var i: nat, j: nat :| !KernelSlot(i) && PageAt(n, d, i, j) != Unmapped;
      PageIsNew(m, n, dirs, shared, d, i, j);
      assert PageFrame(n, d, PageAt(n, d, i, j).frame);
    }
  }

  /** A mapped page has a frame that was free in `m`. */
  lemma PageIsNew(m: Machine, n: Machine, dirs: set<nat>, shared: set<nat>, d: nat, i: nat, j: nat)
    requires Hosts(m, n, dirs, shared, d) && !KernelSlot(i) && PageAt(n, d, i, j) != Unmapped
    ensures PageAt(n, d, i, j).frame < |m.used| && !m.used[PageAt(n, d, i, j).frame]
  {
    assert Live(n, dirs + {d}, shared, true, PageOf(d, i, j)) && Live(n, {d}, shared, true, PageOf(d, i, j));
    assert UsedBy(n, shared, d, PageAt(n, d, i, j).frame);
  }

  lemma CreateHosts(m: Machine, dirs: set<nat>, shared: set<nat>, c: nat)
    requires Spaces(m, dirs, shared) && c in dirs && CreateSpace(m, c).1 != 0
    ensures var (n, d) := CreateSpace(m, c); Hosts(m, n, dirs, shared, d)
  {
    hide Spaces, Holds;
    CreateSpaceKeeps(m, dirs, shared, c);
    CreateHolds(m, dirs, shared, c);
  }

  lemma LifeHosts(m: Machine, n: Machine, dirs: set<nat>, shared: set<nat>, d: nat, ops: seq<LifeOp>)
    requires Hosts(m, n, dirs, shared, d) && Legal(ops)
    ensures Hosts(m, LiveAll(n, d, ops), dirs, shared, d)
  {
    hide Spaces, Holds;
    LifeKeeps(n, m.used, dirs + {d}, shared, d, ops);
  }

  /** An address space that is created, used by any alloc_virt and free_virt calls outside the kernel
      slots, and destroyed, gives back exactly the frames it took if and only if no page of its own is left. */
  lemma TeardownGivesAllBackIff(m: Machine, dirs: set<nat>, shared: set<nat>, c: nat, ops: seq<LifeOp>)
    requires Spaces(m, dirs, shared) && c in dirs && CreateSpace(m, c).1 != 0 && Legal(ops)
    ensures var (m1, d) := CreateSpace(m, c);
            var n := LiveAll(m1, d, ops);
            var r := DestroySpace(n, d);
            && (r.used == m.used && r.counter == m.counter <==> NoPages(n, d))
            && (forall f :: f in shared ==> Marked(r, f))
            && Spaces(r, dirs, shared)
  {
    hide Spaces, Holds, NoPages, Hosts;
    var (m1, d) := CreateSpace(m, c);
    CreateHosts(m, dirs, shared, c);
    LifeHosts(m, m1, dirs, shared, d, ops);
    DestroyLeaves(m, LiveAll(m1, d, ops), dirs, shared, d);
    DestroyGivesAllBackIff(m, LiveAll(m1, d, ops), dirs, shared, d);
  }

  /** The frames of a space: its directory, its tables and its pages, and no frame is two of them. */
  lemma UsesOfSpace(m: Machine, dirs: set<nat>, shared: set<nat>, d: nat, f: nat)
    requires Spaces(m, dirs, shared) && d in dirs
    ensures UsedBy(m, shared, d, f) <==> f == d || PrivateTable(m, shared, d, f) || PageFrame(m, d, f)
    ensures PageFrame(m, d, f) ==> f != d && !PrivateTable(m, shared, d, f)
  {
    if UsedBy(m, shared, d, f) {
      var u :| Live(m, {d}, shared, true, u) && FrameOf(m, u) == f;
      assert u.PageOf? ==> !KernelSlot(u.i) && PageAt(m, d, u.i, u.j) == MappedTo(f);
    }
    assert Live(m, {d}, shared, true, Dir(d)) && Live(m, dirs, shared, true, Dir(d));
    if PrivateTable(m, shared, d, f) {
      var i: nat :| Live(m, {d}, shared, true, TableOf(d, i)) && At(m, d, i).frame == f;
      assert Live(m, dirs, shared, true, TableOf(d, i)) && FrameOf(m, TableOf(d, i)) == f;
    }
    if PageFrame(m, d, f) {
      var i: nat, j: nat :| !KernelSlot(i) && PageAt(m, d, i, j) == MappedTo(f);
      assert Live(m, {d}, shared, true, PageOf(d, i, j)) && Live(m, dirs, shared, true, PageOf(d, i, j));
      assert FrameOf(m, PageOf(d, i, j)) == f;
    }
  }
}
