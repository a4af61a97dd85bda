/** Address spaces over their whole life: creation, use and teardown. */
module AddressSpaces {
  import opened Bitmaps
  import opened PageEntries
  import opened PageTables
  import opened Ownership

  // ---------------------------------------------------------------- kernel slots

  /** The directory slots that every address space takes from the current one: the first 4 MB, the
      kernel image and the frame buffer (1280 * 1024 * 3 bytes, counted in megabytes). */
  predicate KernelSlot(i: nat) {
    i == 0 || 768 <= i < 772 || 820 <= i < 824
  }

  /** clone_kernel_space, from directory `c` into directory `d`. */
  function CloneKernelSpace(m: Machine, c: nat, d: nat): (n: Machine)
    ensures n.used == m.used && n.counter == m.counter && n.maxBlocks == m.maxBlocks && |n.mem| == |m.mem|
    ensures WellFormed(m) ==> WellFormed(n)
    ensures WellFormed(m) && d < |m.mem| ==> forall g: nat, k: nat ::
      At(n, g, k) == if g == d && KernelSlot(k) then At(m, c, k) else At(m, g, k)
  {
    if d >= |m.mem| then m
    else m.(mem := m.mem[d := seq(|m.mem[d]|, k requires 0 <= k < |m.mem[d]| =>
                                   if KernelSlot(k) then At(m, c, k) else m.mem[d][k])])
  }

  /** clear_kernel_space */
  function ClearKernelSpace(m: Machine, d: nat): (n: Machine)
    ensures n.used == m.used && n.counter == m.counter && n.maxBlocks == m.maxBlocks && |n.mem| == |m.mem|
    ensures WellFormed(m) ==> WellFormed(n)
    ensures forall g: nat, k: nat :: At(n, g, k) == if g == d && KernelSlot(k) then ZERO else At(m, g, k)
  {
    if d >= |m.mem| then m
    else m.(mem := m.mem[d := seq(|m.mem[d]|, k requires 0 <= k < |m.mem[d]| =>
                                   if KernelSlot(k) then ZERO else m.mem[d][k])])
  }

  /** Kernel slots hold kernel tables, and no other slot does. */
  ghost predicate Spaces(m: Machine, dirs: set<nat>, shared: set<nat>) {
    && Own(m, dirs, shared, true)
    && forall d: nat, i: nat | d in dirs && At(m, d, i).Present() :: At(m, d, i).frame in shared <==> KernelSlot(i)
  }

  // ---------------------------------------------------------------- the operations keep it

  /** create_address_space, with directory `c` loaded. */
  ghost function CreateSpace(m: Machine, c: nat): (Machine, nat) {
    var (m1, d) := CreatePdir(m);
    if d == 0 then (m1, 0) else (CloneKernelSpace(m1, c, d), d)
  }

  /** clear_kernel_space and vmmngr_free_pdir, as a dying process has them. */
  function DestroySpace(m: Machine, d: nat): Machine {
    FreePdir(ClearKernelSpace(m, d), d)
  }

  lemma CreateSpaceKeeps(m: Machine, dirs: set<nat>, shared: set<nat>, c: nat)
    requires Spaces(m, dirs, shared) && c in dirs && CreateSpace(m, c).1 != 0
    ensures Spaces(CreateSpace(m, c).0, dirs + {CreateSpace(m, c).1}, shared)
  {
    CreatePdirEffect(m, dirs, shared, true);
    var (m1, d) := CreatePdir(m);
    var n := CloneKernelSpace(m1, c, d);
    PresentFlags(ZERO, 0);
    assert Live(m1, dirs + {d}, shared, true, Dir(d));
    forall g: nat, k: nat | g in dirs && At(m, g, k).Present() ensures At(m, g, k).frame != d {
      if At(m, g, k).frame !in shared {
        assert Live(m, dirs, shared, true, TableOf(g, k));
      }
    }
    OwnWithSame(m1, n, dirs + {d}, shared, true);
  }

  // ---------------------------------------------------------------- which addresses that are

  /** A virtual address is its slot, its page and its offset, of ten, ten and twelve bits. */
  lemma AddressParts(va: nat)
    requires va < 0x1_0000_0000
    ensures va == 0x40_0000 * Di(va) + 0x1000 * Ti(va) + va % 0x1000
    ensures Di(va) < 0x400 && Ti(va) < 0x400
  {
    assert va / 0x1000 / 0x400 == va / 0x40_0000 < 0x400;
  }

  /** The physical address of a page that is mapped is its frame with the same offset, and 0 stands for none. */
  lemma PhysicalAddress(m: Machine, d: nat, va: nat, f: nat)
    ensures PageAt(m, d, Di(va), Ti(va)) == MappedTo(f) ==> Virt2Phys(m, d, va) == 0x1000 * f + va % 0x1000
    ensures PageAt(m, d, Di(va), Ti(va)) == Unmapped ==> Virt2Phys(m, d, va) == 0
  {
  }

  /** The kernel slots are the first 4 MB, 16 MB from 0xC000_0000 on and 16 MB from 0xCD00_0000 on. */
  lemma KernelSlotAddresses(va: nat)
    requires va < 0x1_0000_0000
    ensures KernelSlot(Di(va)) <==>
      va < 0x40_0000 || 0xC000_0000 <= va < 0xC100_0000 || 0xCD00_0000 <= va < 0xCE00_0000
  {
  }

  /** The tables that a directory points to are no directories. */
  lemma TableIsNoDirectory(m: Machine, dirs: set<nat>, shared: set<nat>, g: nat, k: nat, d: nat)
    requires Own(m, dirs, shared, true) && g in dirs && d in dirs && At(m, g, k).Present()
    ensures At(m, g, k).frame != d
  {
    assert Live(m, dirs, shared, true, Dir(d));
    if At(m, g, k).frame !in shared {
      assert Live(m, dirs, shared, true, TableOf(g, k));
    }
  }

  /** A new address space sees at those addresses what the loaded one sees there, and nothing anywhere
      else; no other address space changes. */
  lemma NewSpacePages(m: Machine, dirs: set<nat>, shared: set<nat>, c: nat, va: nat, g: nat)
    requires Spaces(m, dirs, shared) && c in dirs && CreateSpace(m, c).1 != 0 && va < 0x1_0000_0000
    ensures var (n, d) := CreateSpace(m, c);
      PageAt(n, d, Di(va), Ti(va))
        == if va < 0x40_0000 || 0xC000_0000 <= va < 0xC100_0000 || 0xCD00_0000 <= va < 0xCE00_0000
           then PageAt(m, c, Di(va), Ti(va)) else Unmapped
    ensures g in dirs ==> PageAt(CreateSpace(m, c).0, g, Di(va), Ti(va)) == PageAt(m, g, Di(va), Ti(va))
  {
    CreatePdirEffect(m, dirs, shared, true);
    var (m1, d) := CreatePdir(m);
    KernelSlotAddresses(va);
    PresentFlags(ZERO, 0);
    CopiedPages(m1, dirs + {d}, shared, c, d, Di(va), Ti(va), if g in dirs then g else c);
  }

  lemma CopiedPages(m: Machine, dirs: set<nat>, shared: set<nat>, c: nat, d: nat, i: nat, j: nat, g: nat)
    requires Own(m, dirs, shared, true) && c in dirs && d in dirs && g in dirs && g != d
    ensures var n := CloneKernelSpace(m, c, d);
      && PageAt(n, d, i, j) == PageAt(m, if KernelSlot(i) then c else d, i, j)
      && PageAt(n, g, i, j) == PageAt(m, g, i, j)
  {
    assert Live(m, dirs, shared, true, Dir(d));
    forall h | h in {c, d, g} && At(m, h, i).Present() ensures At(m, h, i).frame != d {
      TableIsNoDirectory(m, dirs, shared, h, i, d);
    }
  }

  /** No address space is created exactly when no frame can be had, and then nothing changes. */
  lemma CreationFailsIff(m: Machine, c: nat)
    requires WellFormed(m)
    ensures CreateSpace(m, c).1 == 0 <==> m.counter >= m.maxBlocks || forall f: nat | f < |m.used| :: m.used[f]
    ensures CreateSpace(m, c).1 == 0 ==> CreateSpace(m, c).0 == m
  {
    AllocFailsIff(m);
  }

  /** clear_kernel_space takes exactly those addresses out of the space. */
  lemma ClearedSpacePages(m: Machine, dirs: set<nat>, shared: set<nat>, d: nat, va: nat, g: nat)
    requires Spaces(m, dirs, shared) && d in dirs && g in dirs && va < 0x1_0000_0000
    ensures PageAt(ClearKernelSpace(m, d), g, Di(va), Ti(va))
         == if g == d && (va < 0x40_0000 || 0xC000_0000 <= va < 0xC100_0000 || 0xCD00_0000 <= va < 0xCE00_0000)
            then Unmapped else PageAt(m, g, Di(va), Ti(va))
  {
    KernelSlotAddresses(va);
    PresentFlags(ZERO, 0);
    if At(m, g, Di(va)).Present() {
      TableIsNoDirectory(m, dirs, shared, g, Di(va), d);
    }
  }

  // ---------------------------------------------------------------- use and teardown

  lemma AllocKeeps(m: Machine, dirs: set<nat>, shared: set<nat>, d: nat, va: nat, pdeFlags: bv12, pteFlags: bv12)
    requires Spaces(m, dirs, shared) && d in dirs && !KernelSlot(Di(va))
    ensures Spaces(AllocVirt(m, d, va, pdeFlags, pteFlags), dirs, shared)
  {
    AllocVirtEffect(m, dirs, shared, true, d, va, pdeFlags, pteFlags);
  }

  lemma FreeKeeps(m: Machine, dirs: set<nat>, shared: set<nat>, d: nat, va: nat)
    requires Spaces(m, dirs, shared) && d in dirs && !KernelSlot(Di(va))
    ensures Spaces(FreeVirt(m, d, va), dirs, shared)
  {
    FreeVirtEffect(m, dirs, shared, d, va);
  }

  /** A frame of the tables of `d` from slot `i` on. */
  ghost predicate TableFrame(m: Machine, d: nat, i: nat, f: nat) {
    exists k: nat :: i <= k < PAGES_PER_TABLE && At(m, d, k).Present() && At(m, d, k).frame == f
  }

  lemma TableFrameStep(m: Machine, d: nat, i: nat, f: nat)
    requires i < PAGES_PER_TABLE
    ensures TableFrame(m, d, i, f)
       <==> TableFrame(m, d, i + 1, f) || (At(m, d, i).Present() && At(m, d, i).frame == f)
  {
  }

  /** The loop of free_pdir frees exactly the frames of the tables, each once. */
  lemma {:induction false} FreeTablesEffect(m: Machine, n: Machine, d: nat, i: nat)
    requires n.mem == m.mem && |n.used| == |m.used| && i <= PAGES_PER_TABLE
    requires forall k: nat | i <= k < PAGES_PER_TABLE && At(m, d, k).Present() ::
      At(m, d, k).frame < |n.used| && n.used[At(m, d, k).frame]
    requires forall k: nat, l: nat | i <= k < l < PAGES_PER_TABLE && At(m, d, k).Present() && At(m, d, l).Present() ::
      At(m, d, k).frame != At(m, d, l).frame
    ensures var r := FreeTables(n, d, i);
      && r.mem == m.mem && |r.used| == |m.used| && r.maxBlocks == n.maxBlocks
      && r.counter - Used(r.used) == n.counter - Used(n.used)
      && forall f: nat | f < |n.used| :: r.used[f] == (n.used[f] && !TableFrame(m, d, i, f))
    decreases PAGES_PER_TABLE - i
  {
    if i < PAGES_PER_TABLE {
      var e := At(m, d, i);
      var n1 := if e.Present() && e.frame < |n.used| then FreeFrame(n, e.frame) else n;
      if e.Present() {
        UsedAfterUpdate(n.used, e.frame, false);
      }
      FreeTablesEffect(m, n1, d, i + 1);
      forall f: nat | f < |n.used|
        ensures TableFrame(m, d, i, f) <==> TableFrame(m, d, i + 1, f) || (e.Present() && e.frame == f)
      {
        TableFrameStep(m, d, i, f);
      }
    }
  }

  /** Frame `f` is a private table of directory `d`. */
  ghost predicate PrivateTable(m: Machine, shared: set<nat>, d: nat, f: nat) {
    exists i: nat :: Live(m, {d}, shared, true, TableOf(d, i)) && At(m, d, i).frame == f
  }

  /** With the kernel slots cleared, the tables left in the directory are its private ones. */
  lemma PrivateTablesLeft(m: Machine, dirs: set<nat>, shared: set<nat>, d: nat)
    requires Spaces(m, dirs, shared) && d in dirs
    ensures WellFormed(m) && 0 < d < |m.used| && m.used[d]
    ensures var c := ClearKernelSpace(m, d);
      && (forall k: nat | At(c, d, k).Present() ::
            At(c, d, k).frame < |m.used| && m.used[At(c, d, k).frame] && At(c, d, k).frame !in {0, d})
      && (forall k: nat, l: nat | k < l && At(c, d, k).Present() && At(c, d, l).Present() ::
            At(c, d, k).frame != At(c, d, l).frame)
      && forall f: nat :: TableFrame(c, d, 0, f) <==> PrivateTable(m, shared, d, f)
  {
    var c := ClearKernelSpace(m, d);
    PresentFlags(ZERO, 0);
    assert Live(m, dirs, shared, true, Dir(d));
    forall k: nat | At(c, d, k).Present()
      ensures At(c, d, k) == At(m, d, k) && Live(m, dirs, shared, true, TableOf(d, k)) && k < PAGES_PER_TABLE
    {
      assert Live(m, dirs, shared, true, TableOf(d, k));
    }
    forall f: nat ensures TableFrame(c, d, 0, f) <==> PrivateTable(m, shared, d, f) {
      if PrivateTable(m, shared, d, f) {
        var i: nat :| Live(m, {d}, shared, true, TableOf(d, i)) && At(m, d, i).frame == f;
        assert At(c, d, i).Present();
      }
    }
  }

  /** free_pdir gives back the directory and every frame of a table in it, from the first slot to the last. */
  lemma FreePdirEffect(m: Machine, d: nat, f: nat)
    requires d < |m.used| && m.used[d] && !TableFrame(m, d, 0, d) && f < |m.used|
    requires forall k: nat | k < PAGES_PER_TABLE && At(m, d, k).Present() ::
      At(m, d, k).frame < |m.used| && m.used[At(m, d, k).frame]
    requires forall k: nat, l: nat | k < l < PAGES_PER_TABLE && At(m, d, k).Present() && At(m, d, l).Present() ::
      At(m, d, k).frame != At(m, d, l).frame
    ensures |FreePdir(m, d).used| == |m.used|
    ensures FreePdir(m, d).used[f] == (m.used[f] && f != d && !TableFrame(m, d, 0, f))
    ensures FreePdir(m, d).counter - Used(FreePdir(m, d).used) == m.counter - Used(m.used)
  {
    FreeTablesEffect(m, m, d, 0);
    var r := FreeTables(m, d, 0);
    UsedAfterUpdate(r.used, d, false);
  }

  /** Destroying an address space frees its directory and its tables and nothing else. */
  lemma DestroyEffect(m: Machine, dirs: set<nat>, shared: set<nat>, d: nat)
    requires Spaces(m, dirs, shared) && d in dirs
    ensures var r := DestroySpace(m, d);
      && WellFormed(r) && |r.used| == |m.used|
      && (forall g: nat, k: nat | g != d :: At(r, g, k) == At(m, g, k))
      && r.counter - Used(r.used) == m.counter - Used(m.used)
      && forall f: nat | f < |m.used| :: r.used[f] == (m.used[f] && f != d && !PrivateTable(m, shared, d, f))
  {
    var c := ClearKernelSpace(m, d);
    PrivateTablesLeft(m, dirs, shared, d);
    hide Spaces;
    FreeTablesEffect(c, c, d, 0);
    var r1 := FreeTables(c, d, 0);
    assert !TableFrame(c, d, 0, d) && !TableFrame(c, d, 0, 0);
    UsedAfterUpdate(r1.used, d, false);
  }

  /** A use by another directory survives, and keeps its mark. */
  lemma SurvivingUse(m: Machine, dirs: set<nat>, shared: set<nat>, d: nat, u: Use)
    requires Spaces(m, dirs, shared) && d in dirs
    requires Live(m, dirs - {d}, shared, true, u)
    ensures Live(m, dirs, shared, true, u)
    ensures FrameOf(m, u) != d && !PrivateTable(m, shared, d, FrameOf(m, u))
  {
    assert Live(m, dirs, shared, true, Dir(d));
    forall i: nat | Live(m, {d}, shared, true, TableOf(d, i)) ensures At(m, d, i).frame != FrameOf(m, u) {
      assert Live(m, dirs, shared, true, TableOf(d, i));
    }
  }

  lemma DestroyKeeps(m: Machine, dirs: set<nat>, shared: set<nat>, d: nat)
    requires Spaces(m, dirs, shared) && d in dirs
    ensures Spaces(DestroySpace(m, d), dirs - {d}, shared)
  {
    DestroyEffect(m, dirs, shared, d);
    var r := DestroySpace(m, d);
    assert Live(m, dirs, shared, true, Dir(d));
    forall u | Live(r, dirs - {d}, shared, true, u)
      ensures Live(m, dirs - {d}, shared, true, u) && FrameOf(r, u) == FrameOf(m, u)
      ensures Live(m, dirs, shared, true, u) && Marked(r, FrameOf(r, u))
    {
      SameUse(m, r, dirs, shared, d, u);
      SurvivingUse(m, dirs, shared, d, u);
    }
    forall f | f in shared ensures Marked(r, f) {
      KernelTableSurvives(m, dirs, shared, d, f);
    }
  }

  lemma KernelTableSurvives(m: Machine, dirs: set<nat>, shared: set<nat>, d: nat, f: nat)
    requires Spaces(m, dirs, shared) && d in dirs && f in shared
    ensures Marked(m, f) && f != d && !PrivateTable(m, shared, d, f)
  {
    assert Live(m, dirs, shared, true, Dir(d));
  }

  lemma SameUse(m: Machine, r: Machine, dirs: set<nat>, shared: set<nat>, d: nat, u: Use)
    requires Own(m, dirs, shared, true) && d in dirs
    requires forall g: nat, k: nat | g != d :: At(r, g, k) == At(m, g, k)
    requires Live(r, dirs - {d}, shared, true, u)
    ensures Live(m, dirs - {d}, shared, true, u) && FrameOf(r, u) == FrameOf(m, u)
  {
    assert Live(m, dirs, shared, true, Dir(d));
    match u
    case Dir(c) =>
    case TableOf(c, i) =>
    case PageOf(c, i, j) => assert Live(m, dirs, shared, true, TableOf(c, i));
  }
}
