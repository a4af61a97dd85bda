/** Two-level page tables in physical memory, on top of the frame bitmap. */
module PageTables {
  import opened Bitmaps
  import opened PageEntries

  const PAGES_PER_TABLE: nat := 1024
  const PAGE_SIZE: nat := 4096

  type Table = seq<Entry>

  function EmptyTable(): (t: Table)
    ensures |t| == PAGES_PER_TABLE && forall i :: 0 <= i < PAGES_PER_TABLE ==> t[i] == ZERO
  {
    seq(PAGES_PER_TABLE, i => ZERO)
  }

  /** Physical memory by frames of 1024 entries, with the bitmap and counter of the frame allocator. */
  datatype Machine = Machine(used: seq<bool>, counter: int, maxBlocks: nat, mem: seq<Table>)

  /** Frame 0 is never free, so the null address is never a frame. */
  ghost predicate WellFormed(m: Machine) {
    |m.used| == |m.mem| && |m.mem| > 0 && m.used[0] && forall f :: 0 <= f < |m.mem| ==> |m.mem[f]| == PAGES_PER_TABLE
  }

  /** PAGE_DIRECTORY_INDEX, PAGE_TABLE_INDEX and FRAME_OFFSET of a virtual address. */
  function Di(va: nat): (i: nat)
    ensures i < PAGES_PER_TABLE
  {
    (va / 0x40_0000) % PAGES_PER_TABLE
  }

  function Ti(va: nat): (i: nat)
    ensures i < PAGES_PER_TABLE
  {
    (va / PAGE_SIZE) % PAGES_PER_TABLE
  }

  // ---------------------------------------------------------------- frames and entries

  /** pmmngr_alloc_block: the lowest free frame, or 0. */
  ghost function AllocFrame(m: Machine): (r: (Machine, nat))
    ensures WellFormed(m) && r.1 != 0 ==> r.1 < |m.used| && !m.used[r.1]
    ensures r.1 == 0 && WellFormed(m) ==> r.0 == m
    ensures r.1 != 0 && WellFormed(m) ==> r.0 == m.(used := m.used[r.1 := true], counter := m.counter + 1)
  {
    var f := if m.maxBlocks - m.counter <= 0 then -1 else FirstRun(m.used, 1);
    if f == -1 then (m, 0) else (m.(used := m.used[f := true], counter := m.counter + 1), f)
  }

  /** pmmngr_free_block */
  function FreeFrame(m: Machine, f: nat): Machine
    requires f < |m.used|
  {
    m.(used := m.used[f := false], counter := m.counter - 1)
  }

  predicate InMemory(m: Machine, f: nat, i: nat) {
    f < |m.mem| && i < |m.mem[f]|
  }

  function At(m: Machine, f: nat, i: nat): Entry {
    if f < |m.mem| && i < |m.mem[f]| then m.mem[f][i] else ZERO
  }

  function Put(m: Machine, f: nat, i: nat, e: Entry): (r: Machine)
    ensures r.used == m.used && r.counter == m.counter && r.maxBlocks == m.maxBlocks && |r.mem| == |m.mem|
    ensures forall g, j :: At(r, g, j) == (if g == f && j == i && InMemory(m, f, i) then e else At(m, g, j))
    ensures WellFormed(m) ==> WellFormed(r)
  {
    if InMemory(m, f, i) then m.(mem := m.mem[f := m.mem[f][i := e]]) else m
  }

  lemma PutTwice(m: Machine, f: nat, i: nat, a: Entry, b: Entry)
    ensures Put(Put(m, f, i, a), f, i, b) == Put(m, f, i, b)
  {
    if InMemory(m, f, i) {
      assert m.mem[f][i := a][i := b] == m.mem[f][i := b];
      assert m.mem[f := m.mem[f][i := a]][f := m.mem[f][i := b]] == m.mem[f := m.mem[f][i := b]];
    }
  }

  function Clear(m: Machine, f: nat): (r: Machine)
    ensures r.used == m.used && r.counter == m.counter && r.maxBlocks == m.maxBlocks && |r.mem| == |m.mem|
    ensures forall g, j :: At(r, g, j) == (if g == f then ZERO else At(m, g, j))
    ensures WellFormed(m) ==> WellFormed(r)
  {
    if f < |m.mem| then m.(mem := m.mem[f := EmptyTable()]) else m
  }

  // ---------------------------------------------------------------- operations

  /** The first half of alloc_virt and map_page: a table in slot `i` of directory `d`. */
  ghost function EnsureTable(m: Machine, d: nat, i: nat, pdeFlags: bv12): (Machine, bool) {
    var e := At(m, d, i);
    if e.Present() then (Put(m, d, i, e.AddAttrib(pdeFlags)), true)
    else
      var (m1, t) := AllocFrame(m);
      if t == 0 then (m1, false)
      else
        var m2 := Clear(m1, t);
        (Put(m2, d, i, At(m2, d, i).AddAttrib(PRESENT).SetFrame(t).AddAttrib(pdeFlags)), true)
  }

  /** vmmngr_alloc_page into entry `j` of table `t`. */
  ghost function AllocPage(m: Machine, t: nat, j: nat, pteFlags: bv12): Machine {
    var (m1, p) := AllocFrame(m);
    if p == 0 then m1
    else Put(m1, t, j, At(m1, t, j).SetFrame(p).AddAttrib(PRESENT).AddAttrib(pteFlags))
  }

  /** vmmngr_alloc_virt */
  ghost function AllocVirt(m: Machine, d: nat, va: nat, pdeFlags: bv12, pteFlags: bv12): Machine {
    var (m1, ok) := EnsureTable(m, d, Di(va), pdeFlags);
    if !ok then m1
    else
      var t := At(m1, d, Di(va)).frame;
      if At(m1, t, Ti(va)).Present() then m1 else AllocPage(m1, t, Ti(va), pteFlags)
  }

  /** vmmngr_map_page; `frame` is the physical address masked to its page. */
  ghost function MapPage(m: Machine, d: nat, frame: nat, va: nat, pdeFlags: bv12, pteFlags: bv12): Machine {
    var (m1, ok) := EnsureTable(m, d, Di(va), pdeFlags);
    if !ok then m1
    else
      var t := At(m1, d, Di(va)).frame;
      Put(m1, t, Ti(va), At(m1, t, Ti(va)).SetFrame(frame).AddAttrib(pteFlags).AddAttrib(PRESENT))
  }

  /** vmmngr_free_virt; vmmngr_free_page keeps the frame number in the entry. */
  function FreeVirt(m: Machine, d: nat, va: nat): Machine {
    var e := At(m, d, Di(va));
    if !e.Present() then m
    else
      var p := At(m, e.frame, Ti(va));
      if !p.Present() then m
      else
        var m1 := if 0 < p.frame < |m.used| then FreeFrame(m, p.frame) else m;
        Put(m1, e.frame, Ti(va), p.DelAttrib(PRESENT))
  }

  /** vmmngr_unmap_virt */
  function UnmapVirt(m: Machine, d: nat, va: nat): Machine {
    var e := At(m, d, Di(va));
    if !e.Present() then m
    else Put(m, e.frame, Ti(va), At(m, e.frame, Ti(va)).SetFrame(0).DelAttrib(PRESENT))
  }

  /** vmmngr_create_pdir: the new directory, or 0. */
  ghost function CreatePdir(m: Machine): (Machine, nat) {
    var (m1, d) := AllocFrame(m);
    if d == 0 then (m1, 0) else (Clear(m1, d), d)
  }

  /** The loop of vmmngr_free_pdir from slot `i` on. */
  function FreeTables(m: Machine, d: nat, i: nat): Machine
    decreases PAGES_PER_TABLE - i
  {
    if i >= PAGES_PER_TABLE then m
    else
      var e := At(m, d, i);
      FreeTables(if e.Present() && e.frame < |m.used| then FreeFrame(m, e.frame) else m, d, i + 1)
  }

  lemma NoTablesLeft(m: Machine, d: nat)
    ensures FreeTables(m, d, PAGES_PER_TABLE) == m
  {
  }

  /** vmmngr_free_pdir */
  function FreePdir(m: Machine, d: nat): Machine {
    var m1 := FreeTables(m, d, 0);
    if d < |m1.used| then FreeFrame(m1, d) else m1
  }

  // ---------------------------------------------------------------- translation

  /** The frame a virtual page is mapped to, or none. */
  datatype Mapped = Unmapped | MappedTo(frame: nat)

  function PageAt(m: Machine, d: nat, i: nat, j: nat): Mapped {
    var e := At(m, d, i);
    if !e.Present() then Unmapped
    else
      var p := At(m, e.frame, j);
      if p.Present() then MappedTo(p.frame) else Unmapped
  }

  /** vmmngr_virt2phys_pdir: frame and offset, or 0. */
  function Virt2Phys(m: Machine, d: nat, va: nat): nat {
    match PageAt(m, d, Di(va), Ti(va))
    case Unmapped => 0
    case MappedTo(f) => f * PAGE_SIZE + va % PAGE_SIZE
  }
}
