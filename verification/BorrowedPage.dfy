/** A page of another address space that a new one maps for a while: createProcess lends it the stack it
    runs on. Apart from that entry everything goes as without it. */
module BorrowedPage {
  import opened PageEntries
  import opened PageTables
  import opened Ownership
  import opened AddressSpaces
  import opened Teardown

  /** Directory `d` has a table of its own in slot `i`. */
  ghost predicate HasTable(n: Machine, dirs: set<nat>, shared: set<nat>, d: nat, i: nat) {
    Spaces(n, dirs, shared) && d in dirs && i < PAGES_PER_TABLE && !KernelSlot(i) && At(n, d, i).Present()
  }

  /** The machine with another entry `x` for page `(i, j)`. */
  function With(n: Machine, d: nat, i: nat, j: nat, x: Entry): Machine {
    Put(n, At(n, d, i).frame, j, x)
  }

  predicate OffPage(op: LifeOp, i: nat, j: nat) { !(Di(op.va) == i && Ti(op.va) == j) }

  // ---------------------------------------------------------------- writes that commute

  lemma PutPut(m: Machine, f: nat, i: nat, a: Entry, g: nat, k: nat, b: Entry)
    requires (f, i) != (g, k)
    ensures Put(Put(m, f, i, a), g, k, b) == Put(Put(m, g, k, b), f, i, a)
  {
    var x, y := Put(Put(m, f, i, a), g, k, b), Put(Put(m, g, k, b), f, i, a);
    forall h | 0 <= h < |m.mem| ensures x.mem[h] == y.mem[h] {
    }
    assert x.mem == y.mem;
  }

  lemma PutClear(m: Machine, f: nat, i: nat, a: Entry, g: nat)
    requires f != g
    ensures Clear(Put(m, f, i, a), g) == Put(Clear(m, g), f, i, a)
  {
    var x, y := Clear(Put(m, f, i, a), g), Put(Clear(m, g), f, i, a);
    forall h | 0 <= h < |m.mem| ensures x.mem[h] == y.mem[h] {
    }
    assert x.mem == y.mem;
  }

  lemma PutAlloc(m: Machine, f: nat, i: nat, a: Entry)
    ensures AllocFrame(Put(m, f, i, a)) == (Put(AllocFrame(m).0, f, i, a), AllocFrame(m).1)
  {
  }

  /** The frames of an address space's tables. */
  lemma TablesApart(n: Machine, dirs: set<nat>, shared: set<nat>, d: nat, i: nat, k: nat)
    requires HasTable(n, dirs, shared, d, i) && HasTable(n, dirs, shared, d, k)
    ensures Marked(n, At(n, d, i).frame) && At(n, d, i).frame != d && At(n, d, i).frame !in shared
    ensures i != k ==> At(n, d, i).frame != At(n, d, k).frame
  {
    assert Live(n, dirs, shared, true, Dir(d));
    assert Live(n, dirs, shared, true, TableOf(d, i)) && Live(n, dirs, shared, true, TableOf(d, k));
  }

  lemma TableCommutes(n: Machine, dirs: set<nat>, shared: set<nat>, d: nat, i: nat, j: nat, x: Entry,
                      k: nat, flags: bv12)
    requires HasTable(n, dirs, shared, d, i) && k < PAGES_PER_TABLE && !KernelSlot(k)
    ensures var (t, r) := (At(n, d, i).frame, EnsureTable(n, d, k, flags));
      EnsureTable(Put(n, t, j, x), d, k, flags) == (Put(r.0, t, j, x), r.1)
    ensures var m := EnsureTable(n, d, k, flags).0;
      HasTable(m, dirs, shared, d, i) && At(m, d, i).frame == At(n, d, i).frame
    ensures EnsureTable(n, d, k, flags).1 ==> HasTable(EnsureTable(n, d, k, flags).0, dirs, shared, d, k)
  {
    TablesApart(n, dirs, shared, d, i, i);
    EnsureTableEffect(n, dirs, shared, true, d, k, flags);
    var t, e := At(n, d, i).frame, At(n, d, k);
    assert At(Put(n, t, j, x), d, k) == e;
    if e.Present() {
      PutPut(n, t, j, x, d, k, e.AddAttrib(flags));
    } else {
      PutAlloc(n, t, j, x);
      var (m1, g) := AllocFrame(n);
      if g != 0 {
        PutClear(m1, t, j, x, g);
        var m2 := Clear(m1, g);
        PutPut(m2, t, j, x, d, k, At(m2, d, k).AddAttrib(PRESENT).SetFrame(g).AddAttrib(flags));
      }
    }
  }

  /** alloc_virt of another page does not see the entry. */
  lemma TakeCommutes(n: Machine, dirs: set<nat>, shared: set<nat>, d: nat, i: nat, j: nat, x: Entry, op: LifeOp)
    requires HasTable(n, dirs, shared, d, i) && op.Take? && !KernelSlot(Di(op.va)) && OffPage(op, i, j)
    ensures var t := At(n, d, i).frame; Live1(Put(n, t, j, x), d, op) == Put(Live1(n, d, op), t, j, x)
  {
    hide HasTable, EnsureTable;
    var t, k, l := At(n, d, i).frame, Di(op.va), Ti(op.va);
    TableCommutes(n, dirs, shared, d, i, j, x, k, op.pdeFlags);
    var (m, ok) := EnsureTable(n, d, k, op.pdeFlags);
    if ok {
      TablesApart(m, dirs, shared, d, i, k);
      var g := At(m, d, k).frame;
      assert (g, l) != (t, j);
      assert At(Put(m, t, j, x), d, k) == At(m, d, k) && At(Put(m, t, j, x), g, l) == At(m, g, l);
      if !At(m, g, l).Present() {
        PutAlloc(m, t, j, x);
        var (m1, p) := AllocFrame(m);
        PutPut(m1, t, j, x, g, l, At(m1, g, l).SetFrame(p).AddAttrib(PRESENT).AddAttrib(op.pteFlags));
      }
    }
  }

  /** And neither does free_virt. */
  lemma GiveCommutes(n: Machine, dirs: set<nat>, shared: set<nat>, d: nat, i: nat, j: nat, x: Entry, op: LifeOp)
    requires HasTable(n, dirs, shared, d, i) && op.Give? && !KernelSlot(Di(op.va)) && OffPage(op, i, j)
    ensures var t := At(n, d, i).frame; Live1(Put(n, t, j, x), d, op) == Put(Live1(n, d, op), t, j, x)
  {
    var t, k, l := At(n, d, i).frame, Di(op.va), Ti(op.va);
    TablesApart(n, dirs, shared, d, i, i);
    if At(n, d, k).Present() {
      TablesApart(n, dirs, shared, d, i, k);
      hide HasTable;
      var g := At(n, d, k).frame;
      assert (g, l) != (t, j);
      assert At(Put(n, t, j, x), d, k) == At(n, d, k) && At(Put(n, t, j, x), g, l) == At(n, g, l);
      var p := At(n, g, l);
      if p.Present() {
        var m1 := if 0 < p.frame < |n.used| then FreeFrame(n, p.frame) else n;
        PutPut(m1, t, j, x, g, l, p.DelAttrib(PRESENT));
        assert Put(n, t, j, x).mem == Put(m1, t, j, x).mem;
      }
    }
  }

  /** The slot keeps its table. */
  lemma TableStays(n: Machine, dirs: set<nat>, shared: set<nat>, d: nat, i: nat, op: LifeOp)
    requires HasTable(n, dirs, shared, d, i) && !KernelSlot(Di(op.va))
    ensures HasTable(Live1(n, d, op), dirs, shared, d, i) && At(Live1(n, d, op), d, i).frame == At(n, d, i).frame
  {
    match op
    case Take(va, pf, tf) =>
      AllocKeeps(n, dirs, shared, d, va, pf, tf);
      EnsureTableEffect(n, dirs, shared, true, d, Di(va), pf);
      var (m, ok) := EnsureTable(n, d, Di(va), pf);
      if ok && PageAt(m, d, Di(va), Ti(va)) == Unmapped {
        AllocPageEffect(m, dirs, shared, true, d, Di(va), Ti(va), tf);
      }
    case Give(va) =>
      FreeKeeps(n, dirs, shared, d, va);
      FreeVirtEffect(n, dirs, shared, d, va);
  }

  /** Over any life that leaves the page alone, the entry is all that differs. */
  lemma {:induction false} LifeCommutes(n: Machine, dirs: set<nat>, shared: set<nat>, d: nat, i: nat, j: nat, x: Entry,
                                        ops: seq<LifeOp>)
    requires HasTable(n, dirs, shared, d, i) && Legal(ops) && forall k :: 0 <= k < |ops| ==> OffPage(ops[k], i, j)
    ensures HasTable(LiveAll(n, d, ops), dirs, shared, d, i)
    ensures At(LiveAll(n, d, ops), d, i).frame == At(n, d, i).frame
    ensures LiveAll(With(n, d, i, j, x), d, ops) == With(LiveAll(n, d, ops), d, i, j, x)
    decreases |ops|
  {
    if ops != [] {
      hide HasTable, Live1, OffPage;
      var op := ops[0];
      if op.Take? {
        TakeCommutes(n, dirs, shared, d, i, j, x, op);
      } else {
        GiveCommutes(n, dirs, shared, d, i, j, x, op);
      }
      TableStays(n, dirs, shared, d, i, op);
      LifeCommutes(Live1(n, d, op), dirs, shared, d, i, j, x, ops[1..]);
    }
  }

  // ---------------------------------------------------------------- lending and taking back

  lemma TableHosts(m: Machine, n: Machine, dirs: set<nat>, shared: set<nat>, d: nat, i: nat, flags: bv12)
    requires Hosts(m, n, dirs, shared, d) && i < PAGES_PER_TABLE && !KernelSlot(i) && EnsureTable(n, d, i, flags).1
    ensures var r := EnsureTable(n, d, i, flags).0;
      && Hosts(m, r, dirs, shared, d) && HasTable(r, dirs + {d}, shared, d, i)
      && forall k: nat, l: nat :: PageAt(r, d, k, l) == PageAt(n, d, k, l)
  {
    hide Holds, Grows;
    var r := EnsureTable(n, d, i, flags).0;
    EnsureTableEffect(n, dirs + {d}, shared, true, d, i, flags);
    OwnOne(n, dirs + {d}, shared, d);
    OwnOne(r, dirs + {d}, shared, d);
    EnsureTableGrows(n, shared, d, i, flags);
    GrowthHolds(n, r, m.used, shared, d);
    AllocFrameDrift(n);
  }

  /** An entry that is not present, for a page that was not mapped, changes nothing. */
  lemma AbsentUses(n: Machine, dirs: set<nat>, shared: set<nat>, d: nat, i: nat, j: nat, e: Entry)
    requires HasTable(n, dirs, shared, d, i) && j < PAGES_PER_TABLE && PageAt(n, d, i, j) == Unmapped && !e.Present()
    ensures var r := With(n, d, i, j, e);
      && Spaces(r, dirs, shared)
      && (forall u :: Live(r, {d}, shared, true, u) == Live(n, {d}, shared, true, u))
      && (forall u | Live(n, {d}, shared, true, u) :: FrameOf(r, u) == FrameOf(n, u))
      && forall k: nat, l: nat :: PageAt(r, d, k, l) == PageAt(n, d, k, l)
  {
    var r := With(n, d, i, j, e);
    PutTranslates(n, dirs, shared, true, d, i, j, e);
    EntriesAfterPut(n, r, dirs, shared, true, d, i, j, e);
    OwnWithSame(n, r, dirs, shared, true);
    OwnOne(n, dirs, shared, d);
    EntriesAfterPut(n, r, {d}, shared, true, d, i, j, e);
    forall u | Live(n, {d}, shared, true, u) ensures Live(r, {d}, shared, true, u) && FrameOf(r, u) == FrameOf(n, u) {
      OtherUsesStay(n, r, shared, d, i, j, e, u);
    }
  }

  lemma SameUsesHold(n: Machine, r: Machine, base: seq<bool>, shared: set<nat>, d: nat)
    requires Holds(n, base, shared, d) && r.used == n.used
    requires forall u :: Live(r, {d}, shared, true, u) == Live(n, {d}, shared, true, u)
    requires forall u | Live(n, {d}, shared, true, u) :: FrameOf(r, u) == FrameOf(n, u)
    ensures Holds(r, base, shared, d)
  {
    hide Live, FrameOf;
    forall f: nat | f < |base| ensures UsedBy(r, shared, d, f) == UsedBy(n, shared, d, f) {
      if UsedBy(n, shared, d, f) {
        var u :| Live(n, {d}, shared, true, u) && FrameOf(n, u) == f;
        assert Live(r, {d}, shared, true, u) && FrameOf(r, u) == f;
      }
    }
  }

  lemma AbsentHosts(m: Machine, n: Machine, dirs: set<nat>, shared: set<nat>, d: nat, i: nat, j: nat, e: Entry)
    requires Hosts(m, n, dirs, shared, d) && HasTable(n, dirs + {d}, shared, d, i)
    requires j < PAGES_PER_TABLE && PageAt(n, d, i, j) == Unmapped && !e.Present()
    ensures Hosts(m, With(n, d, i, j, e), dirs, shared, d)
    ensures forall k: nat, l: nat :: PageAt(With(n, d, i, j, e), d, k, l) == PageAt(n, d, k, l)
  {
    hide Spaces, Holds, HasTable;
    AbsentUses(n, dirs + {d}, shared, d, i, j, e);
    SameUsesHold(n, With(n, d, i, j, e), m.used, shared, d);
  }

  /** What map_page and unmap_virt do to the entry. */
  lemma MapIsWith(n: Machine, d: nat, frame: nat, va: nat, pdeFlags: bv12, pteFlags: bv12)
    requires EnsureTable(n, d, Di(va), pdeFlags).1
    ensures var r := EnsureTable(n, d, Di(va), pdeFlags).0;
      exists x :: MapPage(n, d, frame, va, pdeFlags, pteFlags) == With(r, d, Di(va), Ti(va), x)
  {
    var r := EnsureTable(n, d, Di(va), pdeFlags).0;
    var x := At(r, At(r, d, Di(va)).frame, Ti(va)).SetFrame(frame).AddAttrib(pteFlags).AddAttrib(PRESENT);
    assert MapPage(n, d, frame, va, pdeFlags, pteFlags) == With(r, d, Di(va), Ti(va), x);
  }

  lemma UnmapIsWith(n: Machine, dirs: set<nat>, shared: set<nat>, d: nat, va: nat, x: Entry)
    requires HasTable(n, dirs, shared, d, Di(va))
    ensures exists e: Entry ::
      !e.Present() && UnmapVirt(With(n, d, Di(va), Ti(va), x), d, va) == With(n, d, Di(va), Ti(va), e)
  {
    var i, j := Di(va), Ti(va);
    TablesApart(n, dirs, shared, d, i, i);
    hide HasTable;
    var t := At(n, d, i).frame;
    var e := x.SetFrame(0).DelAttrib(PRESENT);
    PresentFlags(x.SetFrame(0), 0);
    assert At(Put(n, t, j, x), d, i) == At(n, d, i) && At(Put(n, t, j, x), t, j) == x;
    assert Put(Put(n, t, j, x), t, j, e) == Put(n, t, j, e) by { PutTwice(n, t, j, x, e); }
  }

  /** map_page, what happens in the space meanwhile, and unmap_virt. */
  ghost function Loan(n: Machine, d: nat, frame: nat, va: nat, pdeFlags: bv12, pteFlags: bv12,
                      ops: seq<LifeOp>): Machine
  {
    UnmapVirt(LiveAll(MapPage(n, d, frame, va, pdeFlags, pteFlags), d, ops), d, va)
  }

  /** A page of someone else that is mapped by map_page and unmapped by unmap_virt costs the space its
      table and nothing else, whatever else happens to other pages in between. */
  lemma LoanHosts(m: Machine, n: Machine, dirs: set<nat>, shared: set<nat>, d: nat, frame: nat, va: nat,
                  pdeFlags: bv12, pteFlags: bv12, ops: seq<LifeOp>)
    requires Hosts(m, n, dirs, shared, d) && !KernelSlot(Di(va)) && EnsureTable(n, d, Di(va), pdeFlags).1
    requires Legal(ops) && forall k :: 0 <= k < |ops| ==> OffPage(ops[k], Di(va), Ti(va))
    requires var r := EnsureTable(n, d, Di(va), pdeFlags).0; PageAt(LiveAll(r, d, ops), d, Di(va), Ti(va)) == Unmapped
    ensures var (r, u) := (EnsureTable(n, d, Di(va), pdeFlags).0, Loan(n, d, frame, va, pdeFlags, pteFlags, ops));
      && Hosts(m, r, dirs, shared, d) && Hosts(m, u, dirs, shared, d)
      && (forall k: nat, l: nat :: PageAt(r, d, k, l) == PageAt(n, d, k, l))
      && forall k: nat, l: nat :: PageAt(u, d, k, l) == PageAt(LiveAll(r, d, ops), d, k, l)
  {
    hide EnsureTable, HasTable, With, Hosts, MapPage, UnmapVirt;
    var i, j := Di(va), Ti(va);
    var r := EnsureTable(n, d, i, pdeFlags).0;
    TableHosts(m, n, dirs, shared, d, i, pdeFlags);
    MapIsWith(n, d, frame, va, pdeFlags, pteFlags);
    var x :| MapPage(n, d, frame, va, pdeFlags, pteFlags) == With(r, d, i, j, x);
    LifeCommutes(r, dirs + {d}, shared, d, i, j, x, ops);
    var s := LiveAll(r, d, ops);
    LifeHosts(m, r, dirs, shared, d, ops);
    UnmapIsWith(s, dirs + {d}, shared, d, va, x);
    var e: Entry :| !e.Present() && UnmapVirt(With(s, d, i, j, x), d, va) == With(s, d, i, j, e);
    AbsentHosts(m, s, dirs, shared, d, i, j, e);
  }
}
