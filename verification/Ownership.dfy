/** Which frame serves as what: no frame has two uses, and every frame in use is marked. */
module Ownership {
  import opened Bitmaps
  import opened PageEntries
  import opened PageTables

  /** A use of a frame: as a directory, as the private table of a directory slot, or as the page
      behind an entry of such a table. */
  datatype Use = Dir(d: nat) | TableOf(d: nat, i: nat) | PageOf(d: nat, i: nat, j: nat)

  /** The use is there; `shared` are the kernel tables that all directories may point to, and
      pages count only when `pages` says so. */
  predicate Live(m: Machine, dirs: set<nat>, shared: set<nat>, pages: bool, u: Use) {
    match u
    case Dir(d) => d in dirs
    case TableOf(d, i) => d in dirs && At(m, d, i).Present() && At(m, d, i).frame !in shared
    case PageOf(d, i, j) =>
      && pages && d in dirs && At(m, d, i).Present() && At(m, d, i).frame !in shared
      && At(m, At(m, d, i).frame, j).Present()
  }

  function FrameOf(m: Machine, u: Use): nat {
    match u
    case Dir(d) => d
    case TableOf(d, i) => At(m, d, i).frame
    case PageOf(d, i, j) => At(m, At(m, d, i).frame, j).frame
  }

  ghost predicate Marked(m: Machine, f: nat) {
    0 < f < |m.mem| && |m.used| == |m.mem| && m.used[f]
  }

  /** Every use has a frame of its own, marked and no kernel table. */
  ghost predicate Own(m: Machine, dirs: set<nat>, shared: set<nat>, pages: bool) {
    && WellFormed(m)
    && (forall f :: f in shared ==> Marked(m, f))
    && (forall u :: Live(m, dirs, shared, pages, u) ==> Marked(m, FrameOf(m, u)) && FrameOf(m, u) !in shared)
    && (forall u, v | Live(m, dirs, shared, pages, u) && Live(m, dirs, shared, pages, v) ::
          FrameOf(m, u) == FrameOf(m, v) ==> u == v)
  }

  /** `n` has the uses of `m`, with their frames, and at most the use `x` of frame `f` besides. */
  ghost predicate UsesOf(m: Machine, n: Machine, dirs: set<nat>, dirs': set<nat>, shared: set<nat>, pages: bool,
                         x: Use, f: nat)
  {
    forall u :: Live(n, dirs', shared, pages, u) ==>
      (Live(m, dirs, shared, pages, u) && FrameOf(n, u) == FrameOf(m, u)) || (u == x && FrameOf(n, u) == f)
  }

  /** No frame is given exactly when the counter has reached its limit or every frame is marked. */
  lemma AllocFailsIff(m: Machine)
    requires WellFormed(m)
    ensures AllocFrame(m).1 == 0 <==> m.counter >= m.maxBlocks || forall f: nat | f < |m.used| :: m.used[f]
    ensures CreatePdir(m).1 == AllocFrame(m).1
  {
    var r := FirstRun(m.used, 1);
    if r != -1 {
      assert !m.used[r];
    }
    forall f: nat | f < |m.used| ensures r == -1 ==> m.used[f] {
      assert r == -1 ==> !FreeRun(m.used, f, 1);
    }
  }

  /** A newly allocated frame is in no one else's use. */
  lemma UnmarkedIsUnused(m: Machine, dirs: set<nat>, shared: set<nat>, pages: bool, f: nat)
    requires Own(m, dirs, shared, pages) && f < |m.used| && !m.used[f]
    ensures f !in shared && f !in dirs
    ensures forall u :: Live(m, dirs, shared, pages, u) ==> FrameOf(m, u) != f
  {
    forall d | d in dirs ensures d != f { assert Live(m, dirs, shared, pages, Dir(d)); }
  }

  lemma OwnWithNew(m: Machine, n: Machine, dirs: set<nat>, dirs': set<nat>, shared: set<nat>, pages: bool,
                   x: Use, f: nat)
    requires Own(m, dirs, shared, pages) && f < |m.used| && !m.used[f]
    requires WellFormed(n) && |n.mem| == |m.mem| && n.used == m.used[f := true]
    requires UsesOf(m, n, dirs, dirs', shared, pages, x, f)
    ensures Own(n, dirs', shared, pages)
  {
    UnmarkedIsUnused(m, dirs, shared, pages, f);
  }

  lemma OwnWithSame(m: Machine, n: Machine, dirs: set<nat>, shared: set<nat>, pages: bool)
    requires Own(m, dirs, shared, pages)
    requires WellFormed(n) && |n.mem| == |m.mem| && n.used == m.used
    requires forall u :: Live(n, dirs, shared, pages, u) ==>
      Live(m, dirs, shared, pages, u) && FrameOf(n, u) == FrameOf(m, u)
    ensures Own(n, dirs, shared, pages)
  {
  }

  lemma OwnWithout(m: Machine, n: Machine, dirs: set<nat>, shared: set<nat>, pages: bool, x: Use)
    requires Own(m, dirs, shared, pages) && Live(m, dirs, shared, pages, x)
    requires WellFormed(n) && |n.mem| == |m.mem| && n.used == m.used[FrameOf(m, x) := false]
    requires forall u :: Live(n, dirs, shared, pages, u) ==>
      u != x && Live(m, dirs, shared, pages, u) && FrameOf(n, u) == FrameOf(m, u)
    ensures Own(n, dirs, shared, pages)
  {
  }

  // ---------------------------------------------------------------- installing a table

  /** A new table in a slot that had none. */
  lemma NewTable(m: Machine, dirs: set<nat>, shared: set<nat>, pages: bool, d: nat, i: nat, t: nat, e: Entry)
    requires Own(m, dirs, shared, pages) && d in dirs && i < PAGES_PER_TABLE
    requires !At(m, d, i).Present() && t < |m.used| && !m.used[t] && e.frame == t
    ensures var n := Put(Clear(m.(used := m.used[t := true], counter := m.counter + 1), t), d, i, e);
            && Own(n, dirs, shared, pages)
            && UsesOf(m, n, dirs, dirs, shared, pages, TableOf(d, i), t)
  {
    UnmarkedIsUnused(m, dirs, shared, pages, t);
    var n := Put(Clear(m.(used := m.used[t := true], counter := m.counter + 1), t), d, i, e);
    forall u | Live(n, dirs, shared, pages, u)
      ensures (Live(m, dirs, shared, pages, u) && FrameOf(n, u) == FrameOf(m, u))
           || (u == TableOf(d, i) && FrameOf(n, u) == t)
    {
      match u
      case Dir(_) =>
      case TableOf(c, k) => assert Live(m, dirs, shared, pages, Dir(c));
      case PageOf(c, k, j) =>
        assert Live(m, dirs, shared, pages, Dir(c));
        if (c, k) != (d, i) {
          assert Live(m, dirs, shared, pages, TableOf(c, k));
          assert Live(m, dirs, shared, pages, Dir(d));
        }
    }
    OwnWithNew(m, n, dirs, dirs, shared, pages, TableOf(d, i), t);
  }

  /** The slot holds no kernel table. */
  predicate Private(m: Machine, shared: set<nat>, d: nat, i: nat) {
    At(m, d, i).Present() ==> At(m, d, i).frame !in shared
  }

  /** Every translation in every directory is as before, but for page `(i, j)` of directory `d`. */
  ghost predicate TranslatesAlike(m: Machine, n: Machine, dirs: set<nat>, d: nat, i: nat, j: nat) {
    forall c: nat, k: nat, l: nat | c in dirs && (c, k, l) != (d, i, j) :: PageAt(n, c, k, l) == PageAt(m, c, k, l)
  }

  // ---------------------------------------------------------------- the table of a slot

  /** Entries of directories other than the slot, and all translations, are as before. */
  ghost predicate SlotOnly(m: Machine, n: Machine, dirs: set<nat>, d: nat, i: nat) {
    && (forall c: nat, k: nat | c in dirs && (c, k) != (d, i) :: At(n, c, k) == At(m, c, k))
    && (forall c: nat, k: nat, l: nat | c in dirs :: PageAt(n, c, k, l) == PageAt(m, c, k, l))
  }

  /** What EnsureTable does: ownership is kept, a private table is there, and no translation changes. */
  lemma EnsureTableEffect(m: Machine, dirs: set<nat>, shared: set<nat>, pages: bool, d: nat, i: nat, flags: bv12)
    requires Own(m, dirs, shared, pages) && d in dirs && i < PAGES_PER_TABLE && Private(m, shared, d, i)
    ensures var (n, ok) := EnsureTable(m, d, i, flags);
      && Own(n, dirs, shared, pages)
      && (ok ==> At(n, d, i).Present() && At(n, d, i).frame !in shared && At(n, d, i).flags & flags == flags)
      && (!ok ==> n == m)
      && (At(m, d, i).Present() ==> ok && n.used == m.used && At(n, d, i).frame == At(m, d, i).frame)
      && SlotOnly(m, n, dirs, d, i)
  {
    if At(m, d, i).Present() {
      OldTable(m, dirs, shared, pages, d, i, flags);
    } else if AllocFrame(m).1 != 0 {
      FreshTable(m, dirs, shared, pages, d, i, flags);
    }
  }

  lemma FreshEntry(e: Entry, t: nat, flags: bv12)
    ensures var f := e.AddAttrib(PRESENT).SetFrame(t).AddAttrib(flags);
            f.Present() && f.frame == t && f.flags & flags == flags
  {
    PresentFlags(e, flags);
    PresentFlags(e.AddAttrib(PRESENT), flags);
    HasFlags(e.AddAttrib(PRESENT), flags);
  }

  lemma FreshTable(m: Machine, dirs: set<nat>, shared: set<nat>, pages: bool, d: nat, i: nat, flags: bv12)
    requires Own(m, dirs, shared, pages) && d in dirs && i < PAGES_PER_TABLE
    requires !At(m, d, i).Present() && AllocFrame(m).1 != 0
    ensures var (n, ok) := EnsureTable(m, d, i, flags);
      && ok && Own(n, dirs, shared, pages) && SlotOnly(m, n, dirs, d, i)
      && At(n, d, i).Present() && At(n, d, i).frame !in shared && At(n, d, i).flags & flags == flags
  {
    var (m1, t) := AllocFrame(m);
    UnmarkedIsUnused(m, dirs, shared, pages, t);
    assert Live(m, dirs, shared, pages, Dir(d));
    assert At(Clear(m1, t), d, i) == At(m, d, i);
    var entry := At(m, d, i).AddAttrib(PRESENT).SetFrame(t).AddAttrib(flags);
    FreshEntry(At(m, d, i), t, flags);
    NewTable(m, dirs, shared, pages, d, i, t, entry);
    NewTableSlotOnly(m, dirs, shared, pages, d, i, t, entry);
    assert EnsureTable(m, d, i, flags) == (Put(Clear(m1, t), d, i, entry), true);
  }

  lemma OldTable(m: Machine, dirs: set<nat>, shared: set<nat>, pages: bool, d: nat, i: nat, flags: bv12)
    requires Own(m, dirs, shared, pages) && d in dirs && At(m, d, i).Present()
    ensures var n := Put(m, d, i, At(m, d, i).AddAttrib(flags));
      && Own(n, dirs, shared, pages) && SlotOnly(m, n, dirs, d, i)
      && At(n, d, i).Present() && At(n, d, i).frame == At(m, d, i).frame && At(n, d, i).flags & flags == flags
  {
    var e := At(m, d, i).AddAttrib(flags);
    HasFlags(At(m, d, i), flags);
    PresentFlags(At(m, d, i), flags);
    assert Live(m, dirs, shared, pages, Dir(d));
    hide Own, SlotOnly;
    SameTable(m, dirs, shared, pages, d, i, e);
    assert At(Put(m, d, i, e), d, i) == e;
  }

  /** Another entry for the same table. */
  lemma SameTable(m: Machine, dirs: set<nat>, shared: set<nat>, pages: bool, d: nat, i: nat, e: Entry)
    requires Own(m, dirs, shared, pages) && d in dirs && At(m, d, i).Present()
    requires e.Present() && e.frame == At(m, d, i).frame
    ensures var n := Put(m, d, i, e); Own(n, dirs, shared, pages) && SlotOnly(m, n, dirs, d, i) && InMemory(m, d, i)
  {
    var n := Put(m, d, i, e);
    assert Live(m, dirs, shared, pages, Dir(d));
    forall c: nat, k: nat | c in dirs && At(m, c, k).Present() ensures At(m, c, k).frame != d {
      if At(m, c, k).frame !in shared {
        assert Live(m, dirs, shared, pages, TableOf(c, k));
      }
    }
    assert ZERO.Present() == false by { PresentFlags(ZERO, 0); }
    hide Entry.Present;
    OwnWithSame(m, n, dirs, shared, pages);
  }

  lemma NewTableSlotOnly(m: Machine, dirs: set<nat>, shared: set<nat>, pages: bool, d: nat, i: nat, t: nat, e: Entry)
    requires Own(m, dirs, shared, pages) && d in dirs
    requires !At(m, d, i).Present() && t < |m.used| && !m.used[t] && e.frame == t
    ensures SlotOnly(m, Put(Clear(m.(used := m.used[t := true], counter := m.counter + 1), t), d, i, e), dirs, d, i)
  {
    UnmarkedIsUnused(m, dirs, shared, pages, t);
    assert Live(m, dirs, shared, pages, Dir(d));
    PresentFlags(ZERO, 0);
    forall c: nat, k: nat | c in dirs && At(m, c, k).Present() ensures At(m, c, k).frame !in {d, t} {
      if At(m, c, k).frame !in shared {
        assert Live(m, dirs, shared, pages, TableOf(c, k));
      }
    }
  }

  lemma HasFlags(e: Entry, f: bv12)
    ensures e.AddAttrib(f).flags & f == f
  {
    OrContains(e.flags, f);
  }

  lemma OrContains(s: bv12, f: bv12)
    ensures (s | f) & f == f
  {
  }

  // ---------------------------------------------------------------- an entry of a private table

  /** Writing entry `j` of the private table in slot `i` changes the translation of that page only. */
  lemma PutTranslates(m: Machine, dirs: set<nat>, shared: set<nat>, pages: bool, d: nat, i: nat, j: nat, e: Entry)
    requires Own(m, dirs, shared, pages) && d in dirs && j < PAGES_PER_TABLE
    requires At(m, d, i).Present() && At(m, d, i).frame !in shared
    ensures var n := Put(m, At(m, d, i).frame, j, e);
      && TranslatesAlike(m, n, dirs, d, i, j)
      && PageAt(n, d, i, j) == (if e.Present() then MappedTo(e.frame) else Unmapped)
      && (forall c: nat, k: nat | c in dirs :: At(n, c, k) == At(m, c, k))
      && At(n, At(m, d, i).frame, j) == e
      && WellFormed(n)
  {
    var t := At(m, d, i).frame;
    assert Live(m, dirs, shared, pages, TableOf(d, i));
    forall c | c in dirs ensures c != t { assert Live(m, dirs, shared, pages, Dir(c)); }
    forall c: nat, k: nat | c in dirs && (c, k) != (d, i) && At(m, c, k).Present() ensures At(m, c, k).frame != t {
      if At(m, c, k).frame !in shared {
        assert Live(m, dirs, shared, pages, TableOf(c, k));
      }
    }
  }

  /** A private table's entry gains a newly allocated page. */
  lemma NewPage(m: Machine, dirs: set<nat>, shared: set<nat>, pages: bool, d: nat, i: nat, j: nat, p: nat, e: Entry)
    requires Own(m, dirs, shared, pages) && d in dirs && j < PAGES_PER_TABLE
    requires At(m, d, i).Present() && At(m, d, i).frame !in shared
    requires p < |m.used| && !m.used[p] && e.frame == p
    ensures var t := At(m, d, i).frame;
      Own(Put(m.(used := m.used[p := true], counter := m.counter + 1), t, j, e), dirs, shared, pages)
  {
    var t := At(m, d, i).frame;
    var n := Put(m.(used := m.used[p := true], counter := m.counter + 1), t, j, e);
    PutTranslates(m, dirs, shared, pages, d, i, j, e);
    forall c: nat, k: nat ensures c in dirs ==> At(n, c, k) == At(m, c, k) {
      assert At(Put(m, t, j, e), c, k) == At(n, c, k);
    }
    EntriesAfterPut(m, n, dirs, shared, pages, d, i, j, e);
    OwnWithNew(m, n, dirs, dirs, shared, pages, PageOf(d, i, j), p);
  }

  /** The uses after a write to entry `j` of a private table are the uses before, and perhaps that page. */
  lemma EntriesAfterPut(m: Machine, n: Machine, dirs: set<nat>, shared: set<nat>, pages: bool,
                        d: nat, i: nat, j: nat, e: Entry)
    requires Own(m, dirs, shared, pages) && d in dirs && j < PAGES_PER_TABLE
    requires At(m, d, i).Present() && At(m, d, i).frame !in shared
    requires forall g: nat, k: nat :: At(n, g, k) == At(Put(m, At(m, d, i).frame, j, e), g, k)
    ensures forall u | Live(n, dirs, shared, pages, u) && u != PageOf(d, i, j) ::
      Live(m, dirs, shared, pages, u) && FrameOf(n, u) == FrameOf(m, u)
    ensures Live(n, dirs, shared, pages, PageOf(d, i, j)) ==> e.Present() && FrameOf(n, PageOf(d, i, j)) == e.frame
  {
    PutTranslates(m, dirs, shared, pages, d, i, j, e);
    var t := At(m, d, i).frame;
    forall u | Live(n, dirs, shared, pages, u) && u != PageOf(d, i, j)
      ensures Live(m, dirs, shared, pages, u) && FrameOf(n, u) == FrameOf(m, u)
    {
      match u
      case Dir(_) =>
      case TableOf(c, k) =>
      case PageOf(c, k, l) =>
        if (c, k) != (d, i) {
          assert Live(m, dirs, shared, pages, TableOf(c, k));
          assert Live(m, dirs, shared, pages, TableOf(d, i));
        }
    }
  }

  // ---------------------------------------------------------------- the operations

  /** The second half of alloc_virt: a free frame for an entry that is not present. */
  lemma AllocPageEffect(m: Machine, dirs: set<nat>, shared: set<nat>, pages: bool, d: nat, i: nat, j: nat, flags: bv12)
    requires Own(m, dirs, shared, pages) && d in dirs && j < PAGES_PER_TABLE
    requires At(m, d, i).Present() && At(m, d, i).frame !in shared && PageAt(m, d, i, j) == Unmapped
    ensures var n := AllocPage(m, At(m, d, i).frame, j, flags);
      && Own(n, dirs, shared, pages) && TranslatesAlike(m, n, dirs, d, i, j)
      && (forall c: nat, k: nat | c in dirs :: At(n, c, k) == At(m, c, k))
      && var p := AllocFrame(m).1;
         if p == 0 then n == m
         else && PageAt(n, d, i, j) == MappedTo(p) && n.used == m.used[p := true]
              && At(n, At(m, d, i).frame, j).flags & flags == flags
  {
    var (m2, p) := AllocFrame(m);
    if p != 0 {
      var t := At(m, d, i).frame;
      var entry := At(m, t, j).SetFrame(p).AddAttrib(PRESENT).AddAttrib(flags);
      PresentFlags(At(m, t, j).SetFrame(p), flags);
      PresentFlags(At(m, t, j).SetFrame(p).AddAttrib(PRESENT), flags);
      HasFlags(At(m, t, j).SetFrame(p).AddAttrib(PRESENT), flags);
      NewPage(m, dirs, shared, pages, d, i, j, p, entry);
      PutTranslates(m, dirs, shared, pages, d, i, j, entry);
      assert forall g: nat, k: nat :: At(Put(m2, t, j, entry), g, k) == At(Put(m, t, j, entry), g, k);
    }
  }

  /** alloc_virt outside the kernel slots: ownership is kept; only the addressed page can change its
      translation, and only from unmapped to a frame that was free. */
  lemma AllocVirtEffect(m: Machine, dirs: set<nat>, shared: set<nat>, pages: bool, d: nat, va: nat,
                        pdeFlags: bv12, pteFlags: bv12)
    requires Own(m, dirs, shared, pages) && d in dirs && Private(m, shared, d, Di(va))
    ensures var n := AllocVirt(m, d, va, pdeFlags, pteFlags);
      && Own(n, dirs, shared, pages)
      && TranslatesAlike(m, n, dirs, d, Di(va), Ti(va))
      && PageAllocated(m, n, d, Di(va), Ti(va), pteFlags)
      && (forall f :: 0 <= f < |m.used| && m.used[f] ==> n.used[f])
      && (forall c: nat, k: nat | c in dirs && (c, k) != (d, Di(va)) :: At(n, c, k) == At(m, c, k))
      && Private(n, shared, d, Di(va))
  {
    var i, j := Di(va), Ti(va);
    EnsureTableEffect(m, dirs, shared, pages, d, i, pdeFlags);
    TableKeepsMarks(m, d, i, pdeFlags);
    var (m1, ok) := EnsureTable(m, d, i, pdeFlags);
    if ok && PageAt(m1, d, i, j) == Unmapped {
      AllocPageEffect(m1, dirs, shared, pages, d, i, j, pteFlags);
    }
  }

  /** Adding flags to a slot leaves the entries of the table in it. */
  lemma TableKept(m: Machine, dirs: set<nat>, shared: set<nat>, pages: bool, d: nat, i: nat, j: nat, flags: bv12)
    requires Own(m, dirs, shared, pages) && d in dirs && i < PAGES_PER_TABLE && Private(m, shared, d, i)
    requires At(m, d, i).Present()
    ensures At(EnsureTable(m, d, i, flags).0, At(m, d, i).frame, j) == At(m, At(m, d, i).frame, j)
  {
    assert Live(m, dirs, shared, pages, TableOf(d, i)) && Live(m, dirs, shared, pages, Dir(d));
  }

  /** The requested flags are among the flags. */
  predicate Includes(flags: bv12, requested: bv12) {
    flags & requested == requested
  }

  /** The entry of a page in the table of its slot. */
  function PageEntry(m: Machine, d: nat, i: nat, j: nat): Entry {
    At(m, At(m, d, i).frame, j)
  }

  lemma SlotHasFlags(m: Machine, dirs: set<nat>, shared: set<nat>, pages: bool, d: nat, va: nat,
                     pdeFlags: bv12, pteFlags: bv12)
    requires Own(m, dirs, shared, pages) && d in dirs && Private(m, shared, d, Di(va))
    ensures var e := At(AllocVirt(m, d, va, pdeFlags, pteFlags), d, Di(va));
      e.Present() ==> Includes(e.flags, pdeFlags)
  {
    hide Own, AllocPage, EnsureTable, Includes, Entry.Present;
    TableIncludes(m, dirs, shared, pages, d, Di(va), pdeFlags);
    var (m1, ok) := EnsureTable(m, d, Di(va), pdeFlags);
    if ok && !At(m1, At(m1, d, Di(va)).frame, Ti(va)).Present() {
      SlotStays(m1, dirs, shared, pages, d, Di(va), Ti(va), pteFlags);
    }
  }

  lemma TableIncludes(m: Machine, dirs: set<nat>, shared: set<nat>, pages: bool, d: nat, i: nat, flags: bv12)
    requires Own(m, dirs, shared, pages) && d in dirs && i < PAGES_PER_TABLE && Private(m, shared, d, i)
    ensures var (n, ok) := EnsureTable(m, d, i, flags);
      && Own(n, dirs, shared, pages) && (!ok ==> !At(n, d, i).Present())
      && (ok ==> At(n, d, i).Present() && At(n, d, i).frame !in shared && Includes(At(n, d, i).flags, flags))
  {
    hide Own, EnsureTable;
    EnsureTableEffect(m, dirs, shared, pages, d, i, flags);
  }

  lemma SlotStays(m: Machine, dirs: set<nat>, shared: set<nat>, pages: bool, d: nat, i: nat, j: nat, flags: bv12)
    requires Own(m, dirs, shared, pages) && d in dirs && j < PAGES_PER_TABLE
    requires At(m, d, i).Present() && At(m, d, i).frame !in shared && !At(m, At(m, d, i).frame, j).Present()
    ensures At(AllocPage(m, At(m, d, i).frame, j, flags), d, i) == At(m, d, i)
  {
    hide Own, AllocPage;
    AllocPageEffect(m, dirs, shared, pages, d, i, j, flags);
  }

  lemma NewPageHasFlags(m: Machine, dirs: set<nat>, shared: set<nat>, pages: bool, d: nat, va: nat,
                        pdeFlags: bv12, pteFlags: bv12)
    requires Own(m, dirs, shared, pages) && d in dirs && Private(m, shared, d, Di(va))
    requires PageAt(m, d, Di(va), Ti(va)) == Unmapped
    ensures var n := AllocVirt(m, d, va, pdeFlags, pteFlags);
      PageAt(n, d, Di(va), Ti(va)).MappedTo? ==> Includes(PageEntry(n, d, Di(va), Ti(va)).flags, pteFlags)
  {
    hide Own;
    AllocVirtEffect(m, dirs, shared, pages, d, va, pdeFlags, pteFlags);
  }

  lemma OldPageKeepsEntry(m: Machine, dirs: set<nat>, shared: set<nat>, pages: bool, d: nat, va: nat,
                          pdeFlags: bv12, pteFlags: bv12)
    requires Own(m, dirs, shared, pages) && d in dirs && Private(m, shared, d, Di(va))
    requires PageAt(m, d, Di(va), Ti(va)).MappedTo?
    ensures var n := AllocVirt(m, d, va, pdeFlags, pteFlags);
      PageEntry(n, d, Di(va), Ti(va)) == PageEntry(m, d, Di(va), Ti(va))
  {
    hide Own, AllocPage, EnsureTable;
    EnsureTableEffect(m, dirs, shared, pages, d, Di(va), pdeFlags);
    TableKept(m, dirs, shared, pages, d, Di(va), Ti(va), pdeFlags);
  }

  /** Which flags alloc_virt leaves: the slot has the requested ones if there is a table; a page that was
      mapped keeps its entry, so it has the requested ones exactly if it had them; a new one has them. */
  lemma AllocVirtFlags(m: Machine, dirs: set<nat>, shared: set<nat>, pages: bool, d: nat, va: nat,
                       pdeFlags: bv12, pteFlags: bv12)
    requires Own(m, dirs, shared, pages) && d in dirs && Private(m, shared, d, Di(va))
    ensures var (n, i, j) := (AllocVirt(m, d, va, pdeFlags, pteFlags), Di(va), Ti(va));
      && (At(n, d, i).Present() ==> Includes(At(n, d, i).flags, pdeFlags))
      && (PageAt(m, d, i, j).MappedTo? ==> PageEntry(n, d, i, j) == PageEntry(m, d, i, j))
      && (PageAt(n, d, i, j).MappedTo? ==>
            (Includes(PageEntry(n, d, i, j).flags, pteFlags)
             <==> PageAt(m, d, i, j) == Unmapped || Includes(PageEntry(m, d, i, j).flags, pteFlags)))
  {
    hide Own, AllocVirt, PageAt, PageEntry, At, Includes;
    SlotHasFlags(m, dirs, shared, pages, d, va, pdeFlags, pteFlags);
    if PageAt(m, d, Di(va), Ti(va)) == Unmapped {
      NewPageHasFlags(m, dirs, shared, pages, d, va, pdeFlags, pteFlags);
    } else {
      OldPageKeepsEntry(m, dirs, shared, pages, d, va, pdeFlags, pteFlags);
    }
  }

  /** The flags of a slot with a table to which `flags` were added. */
  predicate TableFlags(e: Entry, f: Entry, flags: bv12) {
    f.flags == if e.Present() then e.flags | flags else e.flags | 1 | flags
  }

  lemma TableGets(m: Machine, dirs: set<nat>, shared: set<nat>, pages: bool, d: nat, i: nat, flags: bv12)
    requires Own(m, dirs, shared, pages) && d in dirs && i < PAGES_PER_TABLE
    ensures var (n, ok) := EnsureTable(m, d, i, flags);
      ok ==> TableFlags(At(m, d, i), At(n, d, i), flags)
    ensures var (n, ok) := EnsureTable(m, d, i, flags);
      ok && !At(m, d, i).Present() ==> forall j: nat :: At(n, At(n, d, i).frame, j) == ZERO
  {
    assert Live(m, dirs, shared, pages, Dir(d));
    var (m1, t) := AllocFrame(m);
    if !At(m, d, i).Present() && t != 0 {
      UnmarkedIsUnused(m, dirs, shared, pages, t);
      assert At(Clear(m1, t), d, i) == At(m, d, i);
    }
  }

  /** The flags of a page that is mapped now: what the entry had, present, and `flags`. */
  predicate PageFlags(before: bv12, after: bv12, flags: bv12) {
    after == before | 1 | flags
  }

  lemma PageGets(m: Machine, dirs: set<nat>, shared: set<nat>, pages: bool, d: nat, i: nat, j: nat, flags: bv12)
    requires Own(m, dirs, shared, pages) && d in dirs && j < PAGES_PER_TABLE
    requires At(m, d, i).Present() && At(m, d, i).frame !in shared && AllocFrame(m).1 != 0
    ensures var (t, n) := (At(m, d, i).frame, AllocPage(m, At(m, d, i).frame, j, flags));
      At(n, d, i) == At(m, d, i) && PageFlags(At(m, t, j).flags, At(n, t, j).flags, flags)
  {
    assert Live(m, dirs, shared, pages, TableOf(d, i)) && Live(m, dirs, shared, pages, Dir(d));
  }

  /** The flags that alloc_virt leaves are exactly these: those of the slot before and the requested ones, and
      those that the page's entry had before, present and the requested ones. What the entry kept from a former
      mapping stays. */
  lemma AllocVirtExactFlags(m: Machine, dirs: set<nat>, shared: set<nat>, pages: bool, d: nat, va: nat,
                            pdeFlags: bv12, pteFlags: bv12)
    requires Own(m, dirs, shared, pages) && d in dirs && Private(m, shared, d, Di(va))
    ensures var (n, i, j) := (AllocVirt(m, d, va, pdeFlags, pteFlags), Di(va), Ti(va));
      && (At(n, d, i).Present() ==> TableFlags(At(m, d, i), At(n, d, i), pdeFlags))
      && (PageAt(m, d, i, j) == Unmapped && PageAt(n, d, i, j).MappedTo? ==>
            PageFlags(if At(m, d, i).Present() then PageEntry(m, d, i, j).flags else 0, PageEntry(n, d, i, j).flags,
                      pteFlags))
  {
    hide Own, AllocPage, EnsureTable, TableFlags, PageFlags, Entry.Present;
    var i, j := Di(va), Ti(va);
    EnsureTableEffect(m, dirs, shared, pages, d, i, pdeFlags);
    TableGets(m, dirs, shared, pages, d, i, pdeFlags);
    if At(m, d, i).Present() {
      TableKept(m, dirs, shared, pages, d, i, j, pdeFlags);
    }
    var (m1, ok) := EnsureTable(m, d, i, pdeFlags);
    if ok && !At(m1, At(m1, d, i).frame, j).Present() {
      SlotStays(m1, dirs, shared, pages, d, i, j, pteFlags);
      PageOrNothing(m1, dirs, shared, pages, d, i, j, pteFlags);
    }
  }

  lemma PageOrNothing(m: Machine, dirs: set<nat>, shared: set<nat>, pages: bool, d: nat, i: nat, j: nat, flags: bv12)
    requires Own(m, dirs, shared, pages) && d in dirs && j < PAGES_PER_TABLE
    requires At(m, d, i).Present() && At(m, d, i).frame !in shared && PageAt(m, d, i, j) == Unmapped
    ensures var (t, n) := (At(m, d, i).frame, AllocPage(m, At(m, d, i).frame, j, flags));
      PageAt(n, d, i, j) == Unmapped || PageFlags(At(m, t, j).flags, At(n, t, j).flags, flags)
  {
    hide Own, PageFlags, AllocPage;
    AllocPageEffect(m, dirs, shared, pages, d, i, j, flags);
    if AllocFrame(m).1 != 0 {
      PageGets(m, dirs, shared, pages, d, i, j, flags);
    }
  }

  /** So for map_page. */
  lemma MapPageExactFlags(m: Machine, dirs: set<nat>, shared: set<nat>, d: nat, frame: nat, va: nat,
                          pdeFlags: bv12, pteFlags: bv12)
    requires Own(m, dirs, shared, false) && d in dirs && Private(m, shared, d, Di(va))
    requires EnsureTable(m, d, Di(va), pdeFlags).1
    ensures var (n, i, j) := (MapPage(m, d, frame, va, pdeFlags, pteFlags), Di(va), Ti(va));
      && TableFlags(At(m, d, i), At(n, d, i), pdeFlags)
      && PageFlags(if At(m, d, i).Present() then PageEntry(m, d, i, j).flags else 0, PageEntry(n, d, i, j).flags,
                   pteFlags)
  {
    hide Own, EnsureTable, TableFlags, PageFlags, Entry.Present;
    var i, j := Di(va), Ti(va);
    EnsureTableEffect(m, dirs, shared, false, d, i, pdeFlags);
    TableGets(m, dirs, shared, false, d, i, pdeFlags);
    if At(m, d, i).Present() {
      TableKept(m, dirs, shared, false, d, i, j, pdeFlags);
    }
    var m1 := EnsureTable(m, d, i, pdeFlags).0;
    MappedEntry(m1, dirs, shared, d, i, j, frame, pteFlags);
  }

  lemma MappedEntry(m: Machine, dirs: set<nat>, shared: set<nat>, d: nat, i: nat, j: nat, frame: nat, flags: bv12)
    requires Own(m, dirs, shared, false) && d in dirs && j < PAGES_PER_TABLE
    requires At(m, d, i).Present() && At(m, d, i).frame !in shared
    ensures var t := At(m, d, i).frame;
      var n := Put(m, t, j, At(m, t, j).SetFrame(frame).AddAttrib(flags).AddAttrib(PRESENT));
      At(n, d, i) == At(m, d, i) && PageFlags(At(m, t, j).flags, At(n, t, j).flags, flags)
  {
    assert Live(m, dirs, shared, false, TableOf(d, i)) && Live(m, dirs, shared, false, Dir(d));
    OrOrder(At(m, At(m, d, i).frame, j).flags, flags);
  }

  lemma OrOrder(s: bv12, f: bv12)
    ensures s | f | 1 == s | 1 | f
  {
  }

  predicate WithoutPresent(before: bv12, after: bv12) { after == before & !1 }

  lemma DelPresent(e: Entry)
    ensures WithoutPresent(e.flags, e.DelAttrib(PRESENT).flags)
  {
  }

  lemma RewrittenEntry(m: Machine, dirs: set<nat>, shared: set<nat>, pages: bool, d: nat, i: nat, j: nat, e: Entry)
    requires Own(m, dirs, shared, pages) && d in dirs && j < PAGES_PER_TABLE
    requires At(m, d, i).Present() && At(m, d, i).frame !in shared
    ensures PageEntry(Put(m, At(m, d, i).frame, j, e), d, i, j) == e
  {
    assert Live(m, dirs, shared, pages, TableOf(d, i)) && Live(m, dirs, shared, pages, Dir(d));
  }

  /** What free_virt and unmap_virt leave in the entry of the page: the former its frame, both all flags but
      the lowest. */
  lemma UnmappedEntry(m: Machine, dirs: set<nat>, shared: set<nat>, pages: bool, d: nat, va: nat)
    requires Own(m, dirs, shared, pages) && d in dirs && At(m, d, Di(va)).Present()
    requires At(m, d, Di(va)).frame !in shared && PageEntry(m, d, Di(va), Ti(va)).Present()
    ensures var (e, f) := (PageEntry(m, d, Di(va), Ti(va)), PageEntry(FreeVirt(m, d, va), d, Di(va), Ti(va)));
      f.frame == e.frame && WithoutPresent(e.flags, f.flags)
    ensures var (e, f) := (PageEntry(m, d, Di(va), Ti(va)), PageEntry(UnmapVirt(m, d, va), d, Di(va), Ti(va)));
      f.frame == 0 && WithoutPresent(e.flags, f.flags)
  {
    hide Own, WithoutPresent, Entry.DelAttrib, Entry.Present;
    var i, j := Di(va), Ti(va);
    var p := PageEntry(m, d, i, j);
    DelPresent(p);
    DelPresent(p.SetFrame(0));
    DelKeepsFrame(p);
    DelKeepsFrame(p.SetFrame(0));
    RewrittenEntry(m, dirs, shared, pages, d, i, j, p.DelAttrib(PRESENT));
    RewrittenEntry(m, dirs, shared, pages, d, i, j, p.SetFrame(0).DelAttrib(PRESENT));
    assert forall g: nat, k: nat ::
      At(FreeVirt(m, d, va), g, k) == At(Put(m, At(m, d, i).frame, j, p.DelAttrib(PRESENT)), g, k);
  }

  lemma DelKeepsFrame(e: Entry)
    ensures e.DelAttrib(PRESENT).frame == e.frame
  {
  }

  /** No entry of another page changes, in whatever table it is. */
  lemma OtherEntriesKept(m: Machine, dirs: set<nat>, shared: set<nat>, pages: bool, d: nat, va: nat,
                         pdeFlags: bv12, pteFlags: bv12, k: nat, l: nat)
    requires Own(m, dirs, shared, pages) && d in dirs && Private(m, shared, d, Di(va))
    requires At(m, d, k).Present() && (k, l) != (Di(va), Ti(va))
    ensures var n := AllocVirt(m, d, va, pdeFlags, pteFlags);
      At(n, d, k).Present() && PageEntry(n, d, k, l) == PageEntry(m, d, k, l)
  {
    hide Own, AllocPage, EnsureTable, Entry.Present;
    EnsureTableEffect(m, dirs, shared, pages, d, Di(va), pdeFlags);
    EntryBesideTable(m, dirs, shared, pages, d, Di(va), pdeFlags, k, l);
    var (m1, ok) := EnsureTable(m, d, Di(va), pdeFlags);
    if ok && !At(m1, At(m1, d, Di(va)).frame, Ti(va)).Present() {
      EntryBesidePage(m1, dirs, shared, pages, d, Di(va), Ti(va), pteFlags, k, l);
    }
  }

  lemma EntryBesideTable(m: Machine, dirs: set<nat>, shared: set<nat>, pages: bool, d: nat, i: nat, flags: bv12,
                         k: nat, l: nat)
    requires Own(m, dirs, shared, pages) && d in dirs && i < PAGES_PER_TABLE && Private(m, shared, d, i)
    requires At(m, d, k).Present()
    ensures var n := EnsureTable(m, d, i, flags).0;
      At(n, d, k).Present() && PageEntry(n, d, k, l) == PageEntry(m, d, k, l)
  {
    assert At(m, d, k).frame != d && Marked(m, At(m, d, k).frame) && WellFormed(m) by {
      assert Live(m, dirs, shared, pages, Dir(d));
      assert At(m, d, k).frame !in shared ==> Live(m, dirs, shared, pages, TableOf(d, k));
    }
    PresentFlags(At(m, d, i), flags);
  }

  lemma EntryBesidePage(m: Machine, dirs: set<nat>, shared: set<nat>, pages: bool, d: nat, i: nat, j: nat, flags: bv12,
                        k: nat, l: nat)
    requires Own(m, dirs, shared, pages) && d in dirs && (k, l) != (i, j)
    requires At(m, d, i).Present() && At(m, d, i).frame !in shared && At(m, d, k).Present()
    ensures var n := AllocPage(m, At(m, d, i).frame, j, flags);
      At(n, d, k) == At(m, d, k) && PageEntry(n, d, k, l) == PageEntry(m, d, k, l)
  {
    assert Live(m, dirs, shared, pages, Dir(d)) && Live(m, dirs, shared, pages, TableOf(d, i));
    assert At(m, d, k).frame !in shared ==> Live(m, dirs, shared, pages, TableOf(d, k));
  }

  /** A page that was mapped keeps its frame; one that is mapped now has a frame that was free. */
  ghost predicate PageAllocated(m: Machine, n: Machine, d: nat, i: nat, j: nat, flags: bv12) {
    && |n.used| == |m.used|
    && match (PageAt(m, d, i, j), PageAt(n, d, i, j))
       case (MappedTo(p), r) => r == MappedTo(p) && n.used == m.used
       case (Unmapped, MappedTo(p)) =>
         0 < p < |m.used| && !m.used[p] && n.used[p] && At(n, At(n, d, i).frame, j).flags & flags == flags
       case (Unmapped, Unmapped) => true
  }

  lemma TableKeepsMarks(m: Machine, d: nat, i: nat, flags: bv12)
    requires WellFormed(m)
    ensures var n := EnsureTable(m, d, i, flags).0;
            |n.used| == |m.used| && forall f :: 0 <= f < |m.used| && m.used[f] ==> n.used[f]
  {
  }

  /** map_page outside the kernel slots: if there is a table, the page is mapped to the given frame
      with the requested flags, and no other translation changes. */
  lemma MapPageEffect(m: Machine, dirs: set<nat>, shared: set<nat>, d: nat, frame: nat, va: nat,
                      pdeFlags: bv12, pteFlags: bv12)
    requires Own(m, dirs, shared, false) && d in dirs && Private(m, shared, d, Di(va))
    ensures var n := MapPage(m, d, frame, va, pdeFlags, pteFlags);
      && Own(n, dirs, shared, false)
      && TranslatesAlike(m, n, dirs, d, Di(va), Ti(va))
      && if EnsureTable(m, d, Di(va), pdeFlags).1 then
           && PageAt(n, d, Di(va), Ti(va)) == MappedTo(frame)
           && Virt2Phys(n, d, va) == frame * PAGE_SIZE + va % PAGE_SIZE
           && At(n, d, Di(va)).flags & pdeFlags == pdeFlags
           && At(n, At(n, d, Di(va)).frame, Ti(va)).flags & pteFlags == pteFlags
         else n == m
  {
    var i, j := Di(va), Ti(va);
    EnsureTableEffect(m, dirs, shared, false, d, i, pdeFlags);
    var (m1, ok) := EnsureTable(m, d, i, pdeFlags);
    if ok {
      var t := At(m1, d, i).frame;
      var e := At(m1, t, j).SetFrame(frame).AddAttrib(pteFlags);
      PresentFlags(e, 0);
      HasFlagsBoth(At(m1, t, j).SetFrame(frame), pteFlags);
      PutTranslates(m1, dirs, shared, false, d, i, j, e.AddAttrib(PRESENT));
      EntriesAfterPut(m1, Put(m1, t, j, e.AddAttrib(PRESENT)), dirs, shared, false, d, i, j, e.AddAttrib(PRESENT));
      OwnWithSame(m1, Put(m1, t, j, e.AddAttrib(PRESENT)), dirs, shared, false);
    }
  }

  lemma HasFlagsBoth(e: Entry, f: bv12)
    ensures e.AddAttrib(f).AddAttrib(PRESENT).flags & f == f
  {
    OrContainsBoth(e.flags, f);
  }

  lemma OrContainsBoth(s: bv12, f: bv12)
    ensures (s | f | PRESENT) & f == f
  {
  }

  /** free_virt outside the kernel slots: the page is unmapped, its frame and no other is given back. */
  lemma FreeVirtEffect(m: Machine, dirs: set<nat>, shared: set<nat>, d: nat, va: nat)
    requires Own(m, dirs, shared, true) && d in dirs && Private(m, shared, d, Di(va))
    ensures var n := FreeVirt(m, d, va);
      && Own(n, dirs, shared, true)
      && TranslatesAlike(m, n, dirs, d, Di(va), Ti(va))
      && PageAt(n, d, Di(va), Ti(va)) == Unmapped
      && (forall c: nat, k: nat | c in dirs :: At(n, c, k) == At(m, c, k))
      && match PageAt(m, d, Di(va), Ti(va))
         case Unmapped => n == m
         case MappedTo(p) => p < |m.used| && n.used == m.used[p := false] && n.counter == m.counter - 1
  {
    var i, j := Di(va), Ti(va);
    var e := At(m, d, i);
    if e.Present() && At(m, e.frame, j).Present() {
      var u := PageOf(d, i, j);
      assert Live(m, dirs, shared, true, u);
      var p := At(m, e.frame, j);
      var n := FreeVirt(m, d, va);
      PresentFlags(p, 0);
      PutTranslates(m, dirs, shared, true, d, i, j, p.DelAttrib(PRESENT));
      assert forall g: nat, k: nat :: At(n, g, k) == At(Put(m, e.frame, j, p.DelAttrib(PRESENT)), g, k);
      EntriesAfterPut(m, n, dirs, shared, true, d, i, j, p.DelAttrib(PRESENT));
      OwnWithout(m, n, dirs, shared, true, u);
    }
  }

  /** A page that is mapped to frame 0, as map_page can do it, is unmapped without giving that frame back. */
  lemma FrameZeroStays(m: Machine, d: nat, va: nat)
    requires PageAt(m, d, Di(va), Ti(va)) == MappedTo(0)
    ensures FreeVirt(m, d, va).used == m.used && FreeVirt(m, d, va).counter == m.counter
  {
  }

  /** unmap_virt outside the kernel slots: the page is unmapped, nothing else, and no frame is freed. */
  lemma UnmapVirtEffect(m: Machine, dirs: set<nat>, shared: set<nat>, d: nat, va: nat)
    requires Own(m, dirs, shared, false) && d in dirs && Private(m, shared, d, Di(va))
    ensures var n := UnmapVirt(m, d, va);
      && Own(n, dirs, shared, false) && n.used == m.used
      && TranslatesAlike(m, n, dirs, d, Di(va), Ti(va))
      && PageAt(n, d, Di(va), Ti(va)) == Unmapped
  {
    var i, j := Di(va), Ti(va);
    var e := At(m, d, i);
    if e.Present() {
      var p := At(m, e.frame, j).SetFrame(0).DelAttrib(PRESENT);
      PresentFlags(At(m, e.frame, j).SetFrame(0), 0);
      PutTranslates(m, dirs, shared, false, d, i, j, p);
      EntriesAfterPut(m, UnmapVirt(m, d, va), dirs, shared, false, d, i, j, p);
      OwnWithSame(m, UnmapVirt(m, d, va), dirs, shared, false);
    }
  }

  /** create_pdir: a directory of its own, with nothing in it. */
  lemma CreatePdirEffect(m: Machine, dirs: set<nat>, shared: set<nat>, pages: bool)
    requires Own(m, dirs, shared, pages) && CreatePdir(m).1 != 0
    ensures var (n, d) := CreatePdir(m);
      && d !in dirs && d !in shared && d < |m.used| && !m.used[d] && n.used == m.used[d := true]
      && n.counter == m.counter + 1
      && Own(n, dirs + {d}, shared, pages)
      && (forall i: nat :: At(n, d, i) == ZERO)
      && (forall c: nat, k: nat | c in dirs :: At(n, c, k) == At(m, c, k))
      && (forall c: nat, k: nat, l: nat | c in dirs :: PageAt(n, c, k, l) == PageAt(m, c, k, l))
  {
    var (m1, d) := AllocFrame(m);
    var n := Clear(m1, d);
    UnmarkedIsUnused(m, dirs, shared, pages, d);
    PresentFlags(ZERO, 0);
    forall c: nat, k: nat | c in dirs && At(m, c, k).Present() ensures At(m, c, k).frame != d {
      if At(m, c, k).frame !in shared {
        assert Live(m, dirs, shared, pages, TableOf(c, k));
      }
    }
    assert UsesOf(m, n, dirs, dirs + {d}, shared, pages, Dir(d), d);
    OwnWithNew(m, n, dirs, dirs + {d}, shared, pages, Dir(d), d);
  }

  lemma FlagsBack(s: bv12, t: bv12, u: bv12, f: bv12)
    requires s & 1 != 0 && WithoutPresent(s, t) && PageFlags(t, u, f)
    ensures u == s | f
  {
  }

  /** A page that is freed and mapped again has every flag that it had before, whether asked for again or not: a
      page once writable stays so. */
  lemma RemappedKeepsFlags(m: Machine, dirs: set<nat>, shared: set<nat>, d: nat, va: nat,
                           pdeFlags: bv12, pteFlags: bv12)
    requires Own(m, dirs, shared, true) && d in dirs && Private(m, shared, d, Di(va))
    requires PageAt(m, d, Di(va), Ti(va)).MappedTo?
    ensures var n := AllocVirt(FreeVirt(m, d, va), d, va, pdeFlags, pteFlags);
      PageAt(n, d, Di(va), Ti(va)).MappedTo? ==>
        PageEntry(n, d, Di(va), Ti(va)).flags == PageEntry(m, d, Di(va), Ti(va)).flags | pteFlags
  {
    hide Own, AllocVirt, FreeVirt, WithoutPresent, PageFlags, TableFlags;
    FreeVirtEffect(m, dirs, shared, d, va);
    UnmappedEntry(m, dirs, shared, true, d, va);
    var f := FreeVirt(m, d, va);
    AllocVirtExactFlags(f, dirs, shared, true, d, va, pdeFlags, pteFlags);
    var n := AllocVirt(f, d, va, pdeFlags, pteFlags);
    if PageAt(n, d, Di(va), Ti(va)).MappedTo? {
      FlagsBack(PageEntry(m, d, Di(va), Ti(va)).flags, PageEntry(f, d, Di(va), Ti(va)).flags,
                PageEntry(n, d, Di(va), Ti(va)).flags, pteFlags);
    }
  }
}
