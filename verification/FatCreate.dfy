/** Creating a file in the root directory: its slot, its first cluster, and what opening finds afterwards. */
module FatCreate {
  import opened Bitmaps
  import opened FatEntries
  import opened FatChains
  import opened FatFiles
  import opened FatDirectory

  // ---------------------------------------------------------------- the slot

  /** A slot of a new file: its name, attributes and first cluster; dates, times and size are 0. */
  function SlotByte(name: Sector, isDir: bool, cluster: nat, k: nat): byte
    requires |name| == NAME_SIZE && cluster < 0x1_0000
  {
    if k < NAME_SIZE then name[k]
    else if k == 11 then (if isDir then 0x10 else 0)
    else if k == 26 then cluster % 256
    else if k == 27 then cluster / 256
    else 0
  }

  /** Byte `k` of the sector when slot `i` is filled in. */
  function ByteWithSlot(s: Sector, i: nat, name: Sector, isDir: bool, cluster: nat, k: nat): byte
    requires k < |s| && |name| == NAME_SIZE && cluster < 0x1_0000
  {
    var o := k - SLOT_SIZE * i;
    if 0 <= o < SLOT_SIZE then SlotByte(name, isDir, cluster, o) else s[k]
  }

  function WithSlot(s: Sector, i: nat, name: Sector, isDir: bool, cluster: nat): (r: Sector)
    requires |s| == SECTOR_SIZE && i < SLOTS && |name| == NAME_SIZE && cluster < 0x1_0000
    ensures |r| == SECTOR_SIZE
    ensures forall k :: 0 <= k < SECTOR_SIZE ==> r[k] == ByteWithSlot(s, i, name, isDir, cluster, k)
  {
    seq(SECTOR_SIZE, k requires 0 <= k < SECTOR_SIZE => ByteWithSlot(s, i, name, isDir, cluster, k))
  }

  /** The new slot reads back, and no other slot changes. */
  lemma WithSlotEffect(s: Sector, i: nat, name: Sector, isDir: bool, cluster: nat, j: nat)
    requires |s| == SECTOR_SIZE && i < SLOTS && j < SLOTS && |name| == NAME_SIZE && cluster < 0x1_0000
    ensures var r := WithSlot(s, i, name, isDir, cluster);
      && NameAt(r, j) == (if j == i then name else NameAt(s, j))
      && ClusterAt(r, j) == (if j == i then cluster else ClusterAt(s, j))
      && LengthAt(r, j) == (if j == i then 0 else LengthAt(s, j))
      && AttribAt(r, j) == (if j == i then (if isDir then 0x10 else 0) else AttribAt(s, j))
  {
    assert cluster == cluster % 256 + 256 * (cluster / 256);
  }

  // ---------------------------------------------------------------- the search for a slot

  /** Where the scan of one sector stops: at a free slot, which has no first cluster, or at the name. */
  predicate Stops(s: Sector, name: Sector, i: nat)
    requires |s| == SECTOR_SIZE && i < SLOTS
  {
    ClusterAt(s, i) == 0 || NameAt(s, i) == name
  }

  function StopSlot(s: Sector, name: Sector, i: nat := 0): (r: nat)
    requires |s| == SECTOR_SIZE && i <= SLOTS
    ensures i <= r <= SLOTS && (r < SLOTS ==> Stops(s, name, r))
    ensures forall k :: i <= k < r ==> !Stops(s, name, k)
    decreases SLOTS - i
  {
    if i == SLOTS || Stops(s, name, i) then i else StopSlot(s, name, i + 1)
  }

  predicate HasStop(v: Volume, name: Sector, n: nat)
    requires Valid(v) && n < ROOT_SECTORS
  {
    StopSlot(v.sectors[ROOT + n], name) < SLOTS
  }

  function StopSector(v: Volume, name: Sector, n: nat := 0): (r: nat)
    requires Valid(v) && n <= ROOT_SECTORS
    ensures n <= r <= ROOT_SECTORS && (r < ROOT_SECTORS ==> HasStop(v, name, r))
    ensures forall m :: n <= m < r ==> !HasStop(v, name, m)
    decreases ROOT_SECTORS - n
  {
    if n == ROOT_SECTORS || HasStop(v, name, n) then n else StopSector(v, name, n + 1)
  }

  // ---------------------------------------------------------------- creation

  datatype Creation = DirectoryFull | NameTaken | TableFull | Created(cluster: nat, parent: nat)

  function ZeroSector(): (z: Sector)
    ensures |z| == SECTOR_SIZE && forall k :: 0 <= k < SECTOR_SIZE ==> z[k] == 0
  {
    seq(SECTOR_SIZE, _ => 0)
  }

  /** A new directory's first cluster is filled with zeros. */
  function Prepared(v: Volume, isDir: bool, cluster: nat): (w: Volume)
    requires Valid(v) && cluster < 0x1000
    ensures Valid(w) && |w.sectors| == |v.sectors|
  {
    if isDir then Rw(v, Handle(cluster, 0, 0, 0, false, true), ZeroSector(), 0, SECTOR_SIZE, Write).vol else v
  }

  /** The slot is written back to its sector. */
  function Placed(v: Volume, n: nat, i: nat, name: Sector, isDir: bool, cluster: nat): (w: Volume)
    requires Valid(v) && n < ROOT_SECTORS && i < SLOTS && |name| == NAME_SIZE && cluster < 0x1000
    ensures Valid(w) && |w.sectors| == |v.sectors| && w.table == v.table
    ensures w.sectors[ROOT + n] == WithSlot(v.sectors[ROOT + n], i, name, isDir, cluster)
    ensures forall s | 0 <= s < |v.sectors| && s != ROOT + n :: w.sectors[s] == v.sectors[s]
  {
    v.(sectors := v.sectors[ROOT + n := WithSlot(v.sectors[ROOT + n], i, name, isDir, cluster)])
  }

  /** fat12fsys_create in the root directory, given the 8.3 name. */
  function CreateInRoot(v: Volume, name: Sector, isDir: bool): (r: (Volume, Creation))
    requires Valid(v) && |name| == NAME_SIZE
    ensures Valid(r.0) && |r.0.sectors| == |v.sectors|
  {
    var n := StopSector(v, name);
    if n == ROOT_SECTORS then (v, DirectoryFull)
    else
      var s := v.sectors[ROOT + n];
      var i := StopSlot(s, name);
      if ClusterAt(s, i) != 0 then (v, NameTaken)
      else
        var (w, c) := Occupy(v, 0);
        if c == CLUSTERS then (w, TableFull)
        else (Prepared(Placed(w, n, i, name, isDir, c), isDir, c), Created(c, ROOT + n))
  }

  // ---------------------------------------------------------------- what it leaves

  /** Filling the cluster of a new directory touches its sector only. */
  lemma PreparedEffect(v: Volume, isDir: bool, c: nat)
    requires Valid(v) && Chain(v.table, [c]) && c < CLUSTERS
    ensures var w := Prepared(v, isDir, c);
      && w.table == v.table
      && (forall s | 0 <= s < |v.sectors| && s != c + 31 :: w.sectors[s] == v.sectors[s])
      && (isDir && c + 31 < |v.sectors| ==> w.sectors[c + 31] == ZeroSector())
  {
    assert v.table[[c][0]] >= END;
    if isDir && c + 31 < |v.sectors| {
      var (w, b) := Transfer(v, Handle(c, 0, 0, 0, false, true), ZeroSector(), 0, SECTOR_SIZE, Write);
      assert w.sectors[c + 31] == ZeroSector();
    }
  }

  /** The first cluster is the lowest free one, a chain of its own, or there is none. */
  lemma FirstCluster(v: Volume)
    requires Valid(v)
    ensures LowestFree(v.table) == CLUSTERS ==> Occupy(v, 0).1 == CLUSTERS
    ensures LowestFree(v.table) < CLUSTERS ==>
      var (u, c) := Occupy(v, 0);
      c == LowestFree(v.table) && u == v.(table := v.table[c := 0xFF8]) && Chain(u.table, [c])
  {
  }

  /** The sectors of the root directory are the same, but for the `n`-th. */
  ghost predicate RootBut(v: Volume, w: Volume, n: nat)
    requires Valid(v) && Valid(w)
  {
    forall s | ROOT <= s < ROOT + ROOT_SECTORS && s != ROOT + n :: w.sectors[s] == v.sectors[s]
  }

  lemma DiskWithSlot(v: Volume, u: Volume, n: nat, i: nat, name: Sector, isDir: bool, c: nat)
    requires Valid(v) && Valid(u) && u.sectors == v.sectors && Chain(u.table, [c])
    requires n < ROOT_SECTORS && i < SLOTS && |name| == NAME_SIZE && c < CLUSTERS
    ensures var w := Prepared(Placed(u, n, i, name, isDir, c), isDir, c);
      w.table == u.table && w.sectors[ROOT + n] == WithSlot(v.sectors[ROOT + n], i, name, isDir, c) && RootBut(v, w, n)
  {
    hide Prepared, WithSlot, Placed, ZeroSector;
    assert c >= 2 by { assert [c][0] == c; }
    PreparedEffect(Placed(u, n, i, name, isDir, c), isDir, c);
  }

  /** A file is created only where the scan has stopped at a free slot, and with a free cluster. */
  lemma CreatedWhere(v: Volume, name: Sector, isDir: bool, n: nat, c: nat)
    requires Valid(v) && |name| == 11 && CreateInRoot(v, name, isDir).1.Created?
    requires n == StopSector(v, name) && c == LowestFree(v.table)
    ensures n < ROOT_SECTORS && c < CLUSTERS
    ensures var i := StopSlot(v.sectors[ROOT + n], name);
      && i < SLOTS && ClusterAt(v.sectors[ROOT + n], i) == 0
      && CreateInRoot(v, name, isDir)
           == (Prepared(Placed(Occupy(v, 0).0, n, i, name, isDir, c), isDir, c), Created(c, ROOT + n))
  {
    hide Prepared, Placed, StopSlot, StopSector, ClusterAt, LowestFree, Occupy, Chain;
    FirstCluster(v);
    assert n < ROOT_SECTORS && HasStop(v, name, n) && |v.sectors[ROOT + n]| == SECTOR_SIZE;
    hide FatFiles.Valid;
  }

  /** The disk after a creation: the slot is filled in, the cluster ends a chain, and the rest of the root
      directory is as before. */
  lemma CreatedDisk(v: Volume, name: Sector, isDir: bool)
    requires Valid(v) && |name| == 11 && CreateInRoot(v, name, isDir).1.Created?
    ensures var (w, r) := CreateInRoot(v, name, isDir);
      var (n, c) := (StopSector(v, name), LowestFree(v.table));
      && n < ROOT_SECTORS && c < CLUSTERS && r == Created(c, ROOT + n)
      && w.table == v.table[c := 0xFF8] && Chain(w.table, [c])
      && var i := StopSlot(v.sectors[ROOT + n], name);
      && i < SLOTS && ClusterAt(v.sectors[ROOT + n], i) == 0
      && w.sectors[ROOT + n] == WithSlot(v.sectors[ROOT + n], i, name, isDir, c)
      && RootBut(v, w, n)
  {
    hide CreateInRoot, Prepared, WithSlot, StopSlot, StopSector, ClusterAt, LowestFree, Chain, Placed, RootBut, Occupy;
    var n, c := StopSector(v, name), LowestFree(v.table);
    CreatedWhere(v, name, isDir, n, c);
    FirstCluster(v);
    DiskWithSlot(v, Occupy(v, 0).0, n, StopSlot(v.sectors[ROOT + n], name), name, isDir, c);
  }

  /** A created file is what opening by the name finds: in the slot where it was put, with the lowest free
      cluster, no length, and as a directory if it was created as one. */
  lemma CreatedIsFound(v: Volume, name: Sector, isDir: bool)
    requires Valid(v) && |name| == 11 && CreateInRoot(v, name, isDir).1.Created?
    ensures var (w, r) := CreateInRoot(v, name, isDir);
      && r.cluster == LowestFree(v.table) < 0xFF0 && Chain(w.table, [r.cluster])
      && w.table == v.table[r.cluster := 0xFF8]
      && RootOpen(w, name) == Found(Handle(r.cluster, 0, 0, 0, false, isDir), r.parent)
  {
    hide CreateInRoot, RootOpen, WithSlot, StopSlot, StopSector, ClusterAt, LowestFree, Chain;
    CreatedDisk(v, name, isDir);
    var n, w := StopSector(v, name), CreateInRoot(v, name, isDir).0;
    OnlyNewSlot(v, w, name, n, StopSlot(v.sectors[ROOT + n], name), isDir, LowestFree(v.table));
  }

  /** Opening after slot `i` of root sector `n`, where the scan stopped, has been filled in. */
  lemma OnlyNewSlot(v: Volume, w: Volume, name: Sector, n: nat, i: nat, isDir: bool, c: nat)
    requires Valid(v) && Valid(w) && |name| == 11 && n == StopSector(v, name) < ROOT_SECTORS && c < 0x1000
    requires i < SLOTS && i == StopSlot(v.sectors[ROOT + n], name)
    requires w.sectors[ROOT + n] == WithSlot(v.sectors[ROOT + n], i, name, isDir, c)
    requires RootBut(v, w, n)
    ensures RootOpen(w, name) == Found(Handle(c, 0, 0, 0, false, isDir), ROOT + n)
  {
    hide WithSlot, FindSlot, FindSector, StopSlot, StopSector, NameAt, ClusterAt, LengthAt, AttribAt;
    var s, t := v.sectors[ROOT + n], w.sectors[ROOT + n];
    forall j: nat | j <= i ensures NameAt(t, j) == name <==> j == i {
      WithSlotEffect(s, i, name, isDir, c, j);
      assert j < i ==> !Stops(s, name, j);
    }
    WithSlotEffect(s, i, name, isDir, c, i);
    assert FindSlot(t, name) == i;
    forall m: nat | m < n ensures !HasName(w, name, m) {
      assert !HasStop(v, name, m);
      var k := FindSlot(v.sectors[ROOT + m], name);
      assert k < SLOTS ==> !Stops(v.sectors[ROOT + m], name, k);
      assert w.sectors[ROOT + m] == v.sectors[ROOT + m];
    }
    assert HasName(w, name, n);
    NoEarlierSector(w, name, 0);
    assert FindSector(w, name) == n;
  }

  /** What other names open stays as it was, unless that was a slot without a first cluster. */
  lemma CreateKeepsOpens(v: Volume, name: Sector, isDir: bool, other: Sector)
    requires Valid(v) && |name| == 11 && other != name && |other| == 11
    requires RootOpen(v, other).Found? && RootOpen(v, other).f.cluster != 0
    ensures RootOpen(CreateInRoot(v, name, isDir).0, other) == RootOpen(v, other)
  {
    hide CreateInRoot, RootOpen, WithSlot, StopSlot, StopSector, ClusterAt, LowestFree, Chain;
    var (w, r) := CreateInRoot(v, name, isDir);
    if r.Created? {
      CreatedDisk(v, name, isDir);
      var n := StopSector(v, name);
      OtherSlots(v, w, name, other, n, StopSlot(v.sectors[ROOT + n], name), isDir, LowestFree(v.table));
    } else {
      NothingCreated(v, w, name, isDir);
    }
  }

  lemma NothingCreated(v: Volume, w: Volume, name: Sector, isDir: bool)
    requires Valid(v) && |name| == 11 && w == CreateInRoot(v, name, isDir).0 && !CreateInRoot(v, name, isDir).1.Created?
    ensures w == v
  {
  }

  lemma OtherSlots(v: Volume, w: Volume, name: Sector, other: Sector, n: nat, i: nat, isDir: bool, c: nat)
    requires Valid(v) && Valid(w) && |name| == 11 && n < ROOT_SECTORS && i < SLOTS && c < 0x1000 && other != name
    requires ClusterAt(v.sectors[ROOT + n], i) == 0
    requires w.sectors[ROOT + n] == WithSlot(v.sectors[ROOT + n], i, name, isDir, c)
    requires RootBut(v, w, n)
    requires RootOpen(v, other).Found? && RootOpen(v, other).f.cluster != 0
    ensures RootOpen(w, other) == RootOpen(v, other)
  {
    hide WithSlot, FindSlot, FindSector, NameAt, ClusterAt, LengthAt, AttribAt;
    var s, t := v.sectors[ROOT + n], w.sectors[ROOT + n];
    var m := FindSector(v, other);
    var k := FindSlot(v.sectors[ROOT + m], other);
    forall j: nat | j < SLOTS ensures NameAt(t, j) == (if j == i then name else NameAt(s, j)) {
      WithSlotEffect(s, i, name, isDir, c, j);
    }
    NoEarlierSector(v, other, 0);
    forall l: nat | l < m ensures !HasName(w, other, l) {
      assert !HasName(v, other, l);
      assert l != n ==> w.sectors[ROOT + l] == v.sectors[ROOT + l];
    }
    if m == n {
      WithSlotEffect(s, i, name, isDir, c, k);
      assert FindSlot(t, other) == k;
    } else {
      assert w.sectors[ROOT + m] == v.sectors[ROOT + m];
    }
    assert HasName(w, other, m);
    NoEarlierSector(w, other, 0);
    assert FindSector(w, other) == m;
  }

  // ---------------------------------------------------------------- when it succeeds

  /** A slot that is free, with no used slot of the name before it. */
  ghost predicate FreeFor(v: Volume, name: Sector, n: nat, i: nat)
    requires Valid(v)
  {
    && n < 14 && i < 16 && ClusterAt(v.sectors[19 + n], i) == 0
    && forall m: nat, k: nat | m < 14 && k < 16 && EarlierSlot(m, k, n, i) && Named(v, name, m, k) ::
         ClusterAt(v.sectors[19 + m], k) == 0
  }

  /** Creation succeeds exactly when there is such a slot and an entry of the table is free. A file of the
      same name behind the first free slot does not keep it from that. */
  lemma CreatedIff(v: Volume, name: Sector, isDir: bool)
    requires Valid(v) && |name| == 11
    ensures CreateInRoot(v, name, isDir).1.Created?
       <==> (exists n, i :: FreeFor(v, name, n, i)) && (exists c :: 2 <= c < 0xFF0 && v.table[c] == 0)
  {
    hide Prepared, WithSlot, StopSlot, StopSector;
    StopIsFreeIff(v, name);
    var l := LowestFree(v.table);
  }

  /** The scan stops at a free slot exactly when there is one. */
  lemma StopIsFreeIff(v: Volume, name: Sector)
    requires Valid(v) && |name| == 11
    ensures var n := StopSector(v, name);
      (n < ROOT_SECTORS && ClusterAt(v.sectors[ROOT + n], StopSlot(v.sectors[ROOT + n], name)) == 0)
      <==> exists n, i :: FreeFor(v, name, n, i)
  {
    hide StopSlot, StopSector, ClusterAt;
    var n := StopSector(v, name);
    if n < ROOT_SECTORS {
      var i := StopSlot(v.sectors[ROOT + n], name);
      BeforeTheStop(v, name);
      assert ClusterAt(v.sectors[ROOT + n], i) == 0 ==> FreeFor(v, name, n, i);
      assert ClusterAt(v.sectors[ROOT + n], i) != 0 ==> Named(v, name, n, i);
    }
    if exists n, i :: FreeFor(v, name, n, i) {
      var m, k :| FreeFor(v, name, m, k);
      StopIsEarly(v, name, m, k);
    }
  }

  lemma StopIsEarly(v: Volume, name: Sector, m: nat, k: nat)
    requires Valid(v) && |name| == 11 && FreeFor(v, name, m, k)
    ensures var n := StopSector(v, name);
      && n < ROOT_SECTORS
      && var i := StopSlot(v.sectors[ROOT + n], name);
      (n == m && i == k) || EarlierSlot(n, i, m, k)
  {
    hide StopSlot, StopSector, ClusterAt;
    assert Stops(v.sectors[ROOT + m], name, k);
    assert HasStop(v, name, m);
  }

  lemma BeforeTheStop(v: Volume, name: Sector)
    requires Valid(v) && |name| == 11 && StopSector(v, name) < ROOT_SECTORS
    ensures var n := StopSector(v, name);
      forall m: nat, k: nat | m < 14 && k < 16 && EarlierSlot(m, k, n, StopSlot(v.sectors[ROOT + n], name)) ::
        !Named(v, name, m, k)
  {
    hide StopSlot, StopSector, ClusterAt;
    var n := StopSector(v, name);
    forall m: nat, k: nat | m < 14 && k < 16 && EarlierSlot(m, k, n, StopSlot(v.sectors[ROOT + n], name))
      ensures !Named(v, name, m, k)
    {
      assert m < n ==> !HasStop(v, name, m);
      assert !Stops(v.sectors[ROOT + m], name, k);
    }
  }

  // ---------------------------------------------------------------- from creation to reading

  lemma FirstBelow(t: seq<nat>, limit: nat)
    requires |t| == 0x1000 && limit <= CLUSTERS && FreeBelow(t, limit) >= 1
    ensures LowestFree(t) < limit && FreeBelow(t[LowestFree(t) := END], limit) == FreeBelow(t, limit) - 1
  {
    var b := seq(limit, n requires 0 <= n < limit => n < 2 || t[n] != 0);
    AllUsed(b);
    var m :| 0 <= m < limit && !b[m];
    var n := LowestFree(t);
    var u := t[n := END];
    OneMore(b, seq(limit, n requires 0 <= n < limit => n < 2 || u[n] != 0), n);
  }

  /** The file with this name can be opened and written, and opened again the bytes read are those written. */
  ghost predicate KeepsBytes(v: Volume, name: Sector, buf: seq<byte>, out: seq<byte>)
    requires Valid(v) && |name| == 11 && |buf| < TWO_TO_32 && |out| >= |buf|
  {
    match RootOpen(v, name)
    case NotFound => false
    case Found(f, parent) =>
      f.cluster < 0x1000 &&
      var r := WriteCall(v, f, parent, name, buf, |buf|);
      match RootOpen(r.vol, name)
      case NotFound => false
      case Found(g, _) =>
        r.outcome == Done && g.cluster == f.cluster &&
        var got := Rw(r.vol, g, out, 0, |buf|, Read);
        got.outcome == Done && got.vol == r.vol && got.buf[..|buf|] == buf && got.buf[|buf|..] == out[|buf|..]
  }

  lemma WrittenIsKept(v: Volume, name: Sector, buf: seq<byte>, out: seq<byte>, c: nat)
    requires Valid(v) && |name| == 11 && |buf| < TWO_TO_32 && |out| >= |buf|
    requires RootOpen(v, name).Found? && RootOpen(v, name).f.cluster == c && !RootOpen(v, name).f.isDir
    requires Chain(v.table, [c]) && c < |v.sectors| - 31
    requires FreeBelow(v.table, |v.sectors| - 31) >= Extra(0, |buf|, 1)
    ensures KeepsBytes(v, name, buf, out)
  {
    hide Rw, WriteCall, FreeBelow, FindSlot, FindSector, Extra;
    WriteReopenRead(v, name, buf, out, [c]);
  }

  /** A created file keeps what is written to it, if there are as many free clusters as its first one and the
      write need. */
  lemma CreateWriteReopenRead(v: Volume, name: Sector, buf: seq<byte>, out: seq<byte>)
    requires Valid(v) && |name| == 11 && CreateInRoot(v, name, false).1.Created?
    requires |buf| < TWO_TO_32 && |out| >= |buf| && FreeBelow(v.table, |v.sectors| - 31) >= 1 + Extra(0, |buf|, 1)
    ensures KeepsBytes(CreateInRoot(v, name, false).0, name, buf, out)
  {
    hide RootOpen, CreateInRoot, FreeBelow, LowestFree, KeepsBytes, Extra;
    CreatedIsFound(v, name, false);
    FirstBelow(v.table, |v.sectors| - 31);
    var (w, r) := CreateInRoot(v, name, false);
    WrittenIsKept(w, name, buf, out, r.cluster);
  }
}
