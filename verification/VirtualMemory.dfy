/** The virtual memory manager in place: entries are overwritten in the frames they live in. */
module VirtualMemory {
  import opened Bitmaps
  import opened PageEntries
  import opened PageTables
  import opened AddressSpaces
  import opened KernelHeap

  /** Every table of a directory lies in memory, above frame 0. */
  ghost predicate TablesInMemory(m: Machine, dir: nat) {
    forall i: nat :: i < PAGES_PER_TABLE && At(m, dir, i).Present() ==> 0 < At(m, dir, i).frame < |m.mem|
  }

  class VirtualMemory {
    const frames: BlockMap        // the frame bitmap and its counter
    const memory: array<Table>    // physical memory by frames

    /** Over a frame bitmap with bit 0 set and frames of 1024 entries. */
    constructor (f: BlockMap, m: array<Table>)
      requires f.Valid() && m.Length == 32 * f.words.Length
      requires WellFormed(Machine(f.Map(), f.usedBlocks, f.maxBlocks, m[..]))
      ensures Valid() && frames == f && memory == m
    {
      frames := f;
      memory := m;
    }

    ghost predicate Valid()
      reads this, frames, frames.words, memory
    {
      && frames.Valid() && memory.Length == 32 * frames.words.Length
      && WellFormed(State())
    }

    ghost function State(): Machine
      reads this, frames, frames.words, memory
    {
      Machine(frames.Map(), frames.usedBlocks, frames.maxBlocks, memory[..])
    }

    /** pmmngr_alloc_block, as a frame number */
    method AllocBlock() returns (frame: nat)
      requires Valid()
      modifies frames`usedBlocks, frames.words
      ensures Valid() && (State(), frame) == AllocFrame(old(State()))
    {
      var f := frames.AllocBlock();
      frame := if f == -1 then 0 else f;
      assert f == -1 || State().used == old(State()).used[f := true];
    }

    /** pmmngr_free_block */
    method FreeBlock(frame: nat)
      requires Valid() && 0 < frame < memory.Length
      modifies frames`usedBlocks, frames.words
      ensures Valid() && State() == FreeFrame(old(State()), frame)
    {
      frames.FreeBlock(frame);
    }

    method PutEntry(f: nat, i: nat, e: Entry)
      requires Valid() && f < memory.Length && i < PAGES_PER_TABLE
      modifies memory
      ensures Valid() && State() == Put(old(State()), f, i, e)
    {
      memory[f] := memory[f][i := e];
      assert memory[..] == old(memory[..])[f := old(memory[f])[i := e]];
    }

    /** vmmngr_pdirectory_clear and vmmngr_ptable_clear */
    method ClearTable(f: nat)
      requires Valid() && f < memory.Length
      modifies memory
      ensures Valid() && State() == Clear(old(State()), f)
    {
      memory[f] := EmptyTable();
      assert memory[..] == old(memory[..])[f := EmptyTable()];
    }

    /** The entry of a directory or of a table. */
    method GetEntry(f: nat, i: nat) returns (e: Entry)
      requires Valid() && f < memory.Length && i < PAGES_PER_TABLE
      ensures e == At(State(), f, i)
    {
      e := memory[f][i];
    }

    /** The shared first half of alloc_virt and map_page. */
    method LookupTable(dir: nat, i: nat, pdeFlags: bv12) returns (ok: bool)
      requires Valid() && dir < memory.Length && i < PAGES_PER_TABLE
      modifies frames`usedBlocks, frames.words, memory
      ensures Valid() && (State(), ok) == EnsureTable(old(State()), dir, i, pdeFlags)
    {
      ghost var m := State();
      var e := GetEntry(dir, i);
      if !e.Present() {
        var table := AllocBlock();
        if table == 0 {
          return false;
        }
        ClearTable(table);
        e := GetEntry(dir, i);
        PutEntry(dir, i, e.AddAttrib(PRESENT).SetFrame(table));
        e := GetEntry(dir, i);
        ghost var m2 := Clear(AllocFrame(m).0, table);
        PutEntry(dir, i, e.AddAttrib(pdeFlags));
        assert State() == Put(m2, dir, i, e.AddAttrib(pdeFlags)) by {
          PutTwice(m2, dir, i, At(m2, dir, i).AddAttrib(PRESENT).SetFrame(table), e.AddAttrib(pdeFlags));
        }
        return true;
      }
      PutEntry(dir, i, e.AddAttrib(pdeFlags));
      return true;
    }

    /** vmmngr_alloc_virt */
    method AllocVirt(dir: nat, va: nat, pdeFlags: bv12, pteFlags: bv12)
      requires Valid() && dir < memory.Length
      requires var (m, ok) := EnsureTable(State(), dir, Di(va), pdeFlags);
        ok ==> At(m, dir, Di(va)).frame < memory.Length
      modifies frames`usedBlocks, frames.words, memory
      ensures Valid() && State() == PageTables.AllocVirt(old(State()), dir, va, pdeFlags, pteFlags)
    {
      var ok := LookupTable(dir, Di(va), pdeFlags);
      if !ok { return; }
      var e := GetEntry(dir, Di(va));
      var page := GetEntry(e.frame, Ti(va));
      if !page.Present() {
        AllocPage(e.frame, Ti(va), pteFlags);
      }
    }

    /** vmmngr_alloc_page */
    method AllocPage(t: nat, j: nat, pteFlags: bv12)
      requires Valid() && t < memory.Length && j < PAGES_PER_TABLE
      modifies frames`usedBlocks, frames.words, memory
      ensures Valid() && State() == PageTables.AllocPage(old(State()), t, j, pteFlags)
    {
      var p := AllocBlock();
      if p == 0 { return; }
      var e := GetEntry(t, j);
      PutEntry(t, j, e.SetFrame(p).AddAttrib(PRESENT).AddAttrib(pteFlags));
    }

    /** vmmngr_map_page */
    method MapPage(dir: nat, phys: nat, va: nat, pdeFlags: bv12, pteFlags: bv12)
      requires Valid() && dir < memory.Length
      requires var (m, ok) := EnsureTable(State(), dir, Di(va), pdeFlags);
        ok ==> At(m, dir, Di(va)).frame < memory.Length
      modifies frames`usedBlocks, frames.words, memory
      ensures Valid() && State() == PageTables.MapPage(old(State()), dir, phys / PAGE_SIZE, va, pdeFlags, pteFlags)
    {
      var ok := LookupTable(dir, Di(va), pdeFlags);
      if !ok { return; }
      var e := GetEntry(dir, Di(va));
      var page := GetEntry(e.frame, Ti(va));
      PutEntry(e.frame, Ti(va), page.SetFrame(phys / PAGE_SIZE).AddAttrib(pteFlags).AddAttrib(PRESENT));
    }

    /** vmmngr_free_virt */
    method FreeVirt(dir: nat, va: nat)
      requires Valid() && dir < memory.Length
      requires At(State(), dir, Di(va)).Present() ==> At(State(), dir, Di(va)).frame < memory.Length
      requires var page := PageAt(State(), dir, Di(va), Ti(va)); page.MappedTo? ==> page.frame < memory.Length
      modifies frames`usedBlocks, frames.words, memory
      ensures Valid() && State() == PageTables.FreeVirt(old(State()), dir, va)
    {
      var e := GetEntry(dir, Di(va));
      if !e.Present() { return; }
      var page := GetEntry(e.frame, Ti(va));
      if page.Present() {
        if page.frame != 0 {
          FreeBlock(page.frame);
        }
        PutEntry(e.frame, Ti(va), page.DelAttrib(PRESENT));
      }
    }

    /** vmmngr_unmap_virt */
    method UnmapVirt(dir: nat, va: nat)
      requires Valid() && dir < memory.Length
      requires At(State(), dir, Di(va)).Present() ==> At(State(), dir, Di(va)).frame < memory.Length
      modifies memory
      ensures Valid() && State() == PageTables.UnmapVirt(old(State()), dir, va)
    {
      var e := GetEntry(dir, Di(va));
      if !e.Present() { return; }
      var page := GetEntry(e.frame, Ti(va));
      PutEntry(e.frame, Ti(va), page.SetFrame(0).DelAttrib(PRESENT));
    }

    /** vmmngr_virt2phys_pdir */
    method Virt2PhysPdir(dir: nat, va: nat) returns (phys: nat)
      requires Valid() && dir < memory.Length
      requires At(State(), dir, Di(va)).Present() ==> At(State(), dir, Di(va)).frame < memory.Length
      ensures phys == Virt2Phys(State(), dir, va)
    {
      var e := GetEntry(dir, Di(va));
      if !e.Present() { return 0; }
      var page := GetEntry(e.frame, Ti(va));
      if !page.Present() { return 0; }
      return page.frame * PAGE_SIZE + va % PAGE_SIZE;
    }

    /** vmmngr_create_pdir */
    method CreatePdir() returns (dir: nat)
      requires Valid()
      modifies frames`usedBlocks, frames.words, memory
      ensures Valid() && (State(), dir) == PageTables.CreatePdir(old(State()))
    {
      dir := AllocBlock();
      if dir == 0 { return; }
      ClearTable(dir);
    }

    /** The body of the loop of vmmngr_free_pdir. */
    method FreeTable(dir: nat, i: nat)
      requires Valid() && dir < memory.Length && i < PAGES_PER_TABLE
      requires At(State(), dir, i).Present() ==> 0 < At(State(), dir, i).frame < memory.Length
      modifies frames`usedBlocks, frames.words
      ensures Valid() && FreeTables(State(), dir, i + 1) == FreeTables(old(State()), dir, i)
      ensures State().mem == old(State()).mem
    {
      var e := GetEntry(dir, i);
      if e.Present() {
        FreeBlock(e.frame);
      }
    }

    /** The loop of vmmngr_free_pdir. */
    method FreeAllTables(dir: nat)
      requires Valid() && dir < memory.Length
      requires TablesInMemory(State(), dir)
      modifies frames`usedBlocks, frames.words
      ensures Valid() && State() == FreeTables(old(State()), dir, 0)
    {
      hide FreeTables, WellFormed;
      ghost var m, result := State(), FreeTables(State(), dir, 0);
      var i := 0;
      while i < PAGES_PER_TABLE
        invariant i <= PAGES_PER_TABLE && Valid() && State().mem == m.mem
        invariant FreeTables(State(), dir, i) == result
      {
        assert TablesInMemory(m, dir) && At(State(), dir, i) == At(m, dir, i);
        FreeTable(dir, i);
        i := i + 1;
      }
      NoTablesLeft(State(), dir);
    }

    /** vmmngr_free_pdir */
    method FreePdir(dir: nat)
      requires Valid() && 0 < dir < memory.Length
      requires TablesInMemory(State(), dir)
      modifies frames`usedBlocks, frames.words
      ensures Valid() && State() == PageTables.FreePdir(old(State()), dir)
    {
      FreeAllTables(dir);
      FreeBlock(dir);
    }

    /** memcpy of directory slots [lo, hi) */
    method CopySlots(from: nat, to: nat, lo: nat, hi: nat)
      requires Valid() && from < memory.Length && to < memory.Length && lo <= hi <= PAGES_PER_TABLE
      modifies memory
      ensures Valid() && frames.Map() == old(frames.Map())
      ensures OnlySlotsChanged(old(memory[..]), memory[..], to, lo, hi)
      ensures forall k :: lo <= k < hi ==> memory[to][k] == old(memory[from][k])
    {
      for i := lo to hi
        invariant Valid() && frames.Map() == old(frames.Map())
        invariant OnlySlotsChanged(old(memory[..]), memory[..], to, lo, i)
        invariant forall k :: i <= k < hi ==> memory[from][k] == old(memory[from][k])
        invariant forall k :: lo <= k < i ==> memory[to][k] == old(memory[from][k])
      {
        memory[to] := memory[to][i := memory[from][i]];
      }
    }

    /** memset of directory slots [lo, hi) to zero */
    method ZeroSlots(dir: nat, lo: nat, hi: nat)
      requires Valid() && dir < memory.Length && lo <= hi <= PAGES_PER_TABLE
      modifies memory
      ensures Valid() && frames.Map() == old(frames.Map())
      ensures OnlySlotsChanged(old(memory[..]), memory[..], dir, lo, hi)
      ensures forall k :: lo <= k < hi ==> memory[dir][k] == ZERO
    {
      for i := lo to hi
        invariant Valid() && frames.Map() == old(frames.Map())
        invariant OnlySlotsChanged(old(memory[..]), memory[..], dir, lo, i)
        invariant forall k :: lo <= k < i ==> memory[dir][k] == ZERO
      {
        memory[dir] := memory[dir][i := ZERO];
      }
    }

    /** clone_kernel_space, with directory `c` loaded */
    method CloneKernelSpace(c: nat, dir: nat)
      requires Valid() && c < memory.Length && dir < memory.Length
      modifies memory
      ensures Valid() && State() == AddressSpaces.CloneKernelSpace(old(State()), c, dir)
    {
      CopySlots(c, dir, 768, 768 + 4);
      CopySlots(c, dir, 0, 1);
      var tables := FrameBufferTables();
      CopySlots(c, dir, 820, 820 + tables);
      assert memory[dir] == AddressSpaces.CloneKernelSpace(old(State()), c, dir).mem[dir];
      assert memory[..] == AddressSpaces.CloneKernelSpace(old(State()), c, dir).mem;
    }

    /** clear_kernel_space */
    method ClearKernelSpace(dir: nat)
      requires Valid() && dir < memory.Length
      modifies memory
      ensures Valid() && State() == AddressSpaces.ClearKernelSpace(old(State()), dir)
    {
      var tables := FrameBufferTables();
      ZeroSlots(dir, 820, 820 + tables);
      ZeroSlots(dir, 768, 768 + 4);
      ZeroSlots(dir, 0, 1);
      assert memory[dir] == AddressSpaces.ClearKernelSpace(old(State()), dir).mem[dir];
      assert memory[..] == AddressSpaces.ClearKernelSpace(old(State()), dir).mem;
    }

    /** create_address_space, with directory `c` loaded */
    method CreateAddressSpace(c: nat) returns (space: nat)
      requires Valid() && c < memory.Length && PageTables.CreatePdir(State()).1 != 0
      modifies frames`usedBlocks, frames.words, memory
      ensures Valid() && (State(), space) == CreateSpace(old(State()), c)
    {
      space := CreatePdir();
      CloneKernelSpace(c, space);
    }
  }

  /** The slots for the frame buffer, in steps of a megabyte. */
  method FrameBufferTables() returns (tables: nat)
    ensures tables == 4
  {
    tables := PIXEL_WIDTH * PIXEL_HEIGHT * 3 / 0x10_0000;
    if PIXEL_WIDTH * PIXEL_HEIGHT * 3 % 0x10_0000 != 0 {
      tables := tables + 1;
    }
  }

  const PIXEL_WIDTH: nat := 1280
  const PIXEL_HEIGHT: nat := 1024

  /** Two memories differ at most in slots [lo, hi) of frame `f`. */
  ghost predicate OnlySlotsChanged(was: seq<Table>, now: seq<Table>, f: nat, lo: nat, hi: nat)
    requires |was| == |now| && f < |was|
  {
    && |now[f]| == |was[f]|
    && (forall g :: 0 <= g < |was| && g != f ==> now[g] == was[g])
    && (forall k :: 0 <= k < |was[f]| && !(lo <= k < hi) ==> now[f][k] == was[f][k])
  }
}
