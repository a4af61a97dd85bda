/** Reading and writing along a cluster chain, as the recursion of fat12fsys_rw does it. */
module FatFiles {
  import opened Bitmaps
  import opened FatEntries
  import opened FatChains

  /** An open file: the cluster it is at and the position inside it, its length, the absolute
      position that writes keep, and whether it is a directory. */
  datatype Handle = Handle(cluster: nat, position: nat, length: nat, absPosition: nat, eof: bool, isDir: bool)

  datatype Direction = Read | Write

  /** `OffDisk`: the next sector is not on the disk. `Overrun`: the remaining length has wrapped below
      zero and the source goes on beyond its buffer; what then happens is not part of this model. */
  datatype Outcome = Done | OffDisk | Overrun

  datatype Result = Result(vol: Volume, file: Handle, buf: seq<byte>, outcome: Outcome)

  /** A disk as files see it: the table of entries, and the sectors outside the table. */
  datatype Volume = Volume(table: seq<nat>, sectors: seq<Sector>)

  predicate InTable(s: int) { 1 <= s <= FAT_SECTORS }

  ghost predicate Valid(v: Volume) {
    && ValidTable(v.table)
    && 34 <= |v.sectors| <= CLUSTERS + 31
    && forall s :: 0 <= s < |v.sectors| && !InTable(s) ==> |v.sectors[s]| == SECTOR_SIZE
  }

  ghost function VolumeOf(d: Disk): (v: Volume)
    requires ValidDisk(d)
    ensures Valid(v) && |v.sectors| == |d|
  {
    Volume(Table(d), seq(|d|, s requires 0 <= s < |d| => if InTable(s) then [] else d[s]))
  }

  /** `dst` with `k` bytes from position `at` on taken from position `from` of `src`. */
  function Copied(dst: seq<byte>, at: nat, src: seq<byte>, from: nat, k: nat): (r: seq<byte>)
    requires at + k <= |dst| && from + k <= |src|
    ensures |r| == |dst|
    ensures forall j :: 0 <= j < |dst| ==> r[j] == if at <= j < at + k then src[from + j - at] else dst[j]
  {
    seq(|dst|, j requires 0 <= j < |dst| => if at <= j < at + k then src[from + j - at] else dst[j])
  }

  /** One sector of a transfer: the first cluster takes or gives at most what is left of it. */
  function Transfer(v: Volume, f: Handle, buf: seq<byte>, at: nat, k: nat, dir: Direction): (r: (Volume, seq<byte>))
    requires Valid(v) && f.position + k <= SECTOR_SIZE && at + k <= |buf| && f.cluster + 31 < |v.sectors|
    ensures Valid(r.0) && |r.0.sectors| == |v.sectors| && |r.1| == |buf| && r.0.table == v.table
  {
    var s := f.cluster + 31;
    match dir
    case Read => (v, Copied(buf, at, v.sectors[s], f.position, k))
    case Write =>
      var sector: Sector := Copied(v.sectors[s], f.position, buf, at, k);
      (v.(sectors := v.sectors[s := sector]), buf)
  }

  /** occupy_free_cluster */
  function Occupy(v: Volume, chain: nat): (r: (Volume, nat))
    requires Valid(v) && chain < 0x1000
    ensures Valid(r.0) && r.0.sectors == v.sectors && 2 <= r.1 <= CLUSTERS
  {
    var (t, n) := Occupied(v.table, chain);
    (v.(table := t), n)
  }

  /** The end of a transfer of fewer bytes than are left of the sector: the position moves, and if it
      then lies beyond the length the entry of the cluster decides. */
  function EndInside(v: Volume, f: Handle, buf: seq<byte>, len: nat, dir: Direction): Result
    requires Valid(v) && f.cluster < 0x1000
  {
    var next := v.table[f.cluster];
    var g := f.(position := f.position + len);
    if g.position <= f.length && !f.isDir then Result(v, g, buf, Done)
    else if next == 0 || (next >= END && dir == Read) then Result(v, g.(eof := true), buf, Done)
    else Result(v, g, buf, Overrun)
  }

  /** The transfer ends with this cluster, or goes on for `rest` bytes in another. */
  datatype Next = Ends | GoesOn(v: Volume, cluster: nat)

  function NextCluster(v: Volume, cluster: nat, rest: nat, dir: Direction): (n: Next)
    requires Valid(v) && cluster < 0x1000
    ensures n.GoesOn? ==> Valid(n.v) && |n.v.sectors| == |v.sectors| && n.cluster < 0x1000
  {
    var next := v.table[cluster];
    if next == 0 || (next >= END && !(rest > 0 && dir == Write)) then Ends
    else if rest > 0 && dir == Write && next >= END then
      var (w, n) := Occupy(v, cluster);
      GoesOn(w, n)
    else GoesOn(v, next)
  }

  /** fat12fsys_rw, for the `len` bytes of the buffer from `at` on. */
  function Rw(v: Volume, f: Handle, buf: seq<byte>, at: nat, len: nat, dir: Direction): (r: Result)
    requires Valid(v) && f.cluster < 0x1000 && f.position < SECTOR_SIZE && at + len <= |buf|
    ensures Valid(r.vol) && |r.vol.sectors| == |v.sectors| && |r.buf| == |buf|
    decreases len
  {
    if len == 0 then Result(v, f, buf, Done)
    else if f.cluster + 31 >= |v.sectors| then Result(v, f, buf, OffDisk)
    else
      var room := SECTOR_SIZE - f.position;
      var (v1, buf1) := Transfer(v, f, buf, at, if len >= room then room else len, dir);
      if len < room then EndInside(v1, f, buf1, len, dir)
      else
        match NextCluster(v1, f.cluster, len - room, dir)
        case Ends => Result(v1, f.(eof := true), buf1, Done)
        case GoesOn(w, c) => Rw(w, f.(cluster := c, position := 0), buf1, at + room, len - room, dir)
  }

  // ---------------------------------------------------------------- what a write does

  /** The clusters that a write of `len` bytes from `pos` on needs beyond the `n` that are there. */
  function Extra(pos: nat, len: nat, n: nat): nat {
    if pos + len <= SECTOR_SIZE * n then 0 else (pos + len - 1) / SECTOR_SIZE + 1 - n
  }

  /** The transfer ends on a sector boundary, or not beyond the length of a file. */
  predicate StaysInside(f: Handle, len: nat) {
    var last := (f.position + len) % SECTOR_SIZE;
    len == 0 || last == 0 || (!f.isDir && last <= f.length)
  }

  /** Byte `p` of the j-th cluster of a chain. */
  function ByteOf(v: Volume, cs: seq<nat>, j: nat, p: nat): byte
    requires Valid(v) && Below(cs, |v.sectors| - 31) && j < |cs| && p < SECTOR_SIZE
  {
    v.sectors[cs[j] + 31][p]
  }

  /** The bytes of the chain: those from `pos` on are from the buffer, all others as before. */
  ghost predicate Stored(v: Volume, w: Volume, cs: seq<nat>, pos: nat, buf: seq<byte>, at: nat, len: nat)
    requires Valid(v) && Valid(w) && |w.sectors| == |v.sectors| && Below(cs, |v.sectors| - 31) && at + len <= |buf|
  {
    forall j: nat, p: nat | j < |cs| && p < SECTOR_SIZE ::
      ByteOf(w, cs, j, p) ==
        if pos <= SECTOR_SIZE * j + p < pos + len then buf[at + SECTOR_SIZE * j + p - pos] else ByteOf(v, cs, j, p)
  }

  /** Sectors outside the table and outside the chain are as before. */
  ghost predicate Untouched(v: Volume, w: Volume, cs: seq<nat>) {
    && |w.sectors| == |v.sectors|
    && forall s | 0 <= s < |v.sectors| && !InTable(s) && s - 31 !in cs :: w.sectors[s] == v.sectors[s]
  }

  /** Where the handle is left: behind the last byte, but a transfer that fills the last cluster of
      the chain leaves the position inside it where it was. */
  predicate LeftAt(f: Handle, g: Handle, cs: seq<nat>, len: nat) {
    var end := f.position + len;
    && g.length == f.length && g.absPosition == f.absPosition && g.isDir == f.isDir
    && if end < SECTOR_SIZE * |cs| then g.cluster == cs[end / SECTOR_SIZE] && g.position == end % SECTOR_SIZE
       else |cs| > 0 && g.cluster == cs[|cs| - 1] && g.position == (if |cs| == 1 then f.position else 0)
  }

  /** What is left of a sector after the transfer into it. */
  lemma FirstSectorStored(v: Volume, f: Handle, buf: seq<byte>, at: nat, k: nat, cs: seq<nat>)
    requires Valid(v) && f.position + k <= SECTOR_SIZE && at + k <= |buf|
    requires |cs| > 0 && f.cluster == cs[0] && Below(cs, |v.sectors| - 31) && cs[0] !in cs[1..]
    ensures var w := Transfer(v, f, buf, at, k, Write).0;
      Stored(v, w, cs, f.position, buf, at, k) && Untouched(v, w, [cs[0]])
  {
    var w := Transfer(v, f, buf, at, k, Write).0;
    forall j | 0 < j < |cs| ensures w.sectors[cs[j] + 31] == v.sectors[cs[j] + 31] {
      assert cs[j] == cs[1..][j - 1];
    }
  }

  /** The first sector and the rest of the chain together. */
  lemma StoredTogether(v: Volume, v2: Volume, w: Volume, cs: seq<nat>, pos: nat, buf: seq<byte>, at: nat, len: nat)
    requires Valid(v) && Valid(v2) && Valid(w) && |v2.sectors| == |v.sectors| && |w.sectors| == |v.sectors|
    requires |cs| > 0 && Below(cs, |v.sectors| - 31) && cs[0] !in cs[1..]
    requires pos < SECTOR_SIZE && at + len <= |buf| && len >= SECTOR_SIZE - pos
    requires Stored(v, v2, cs, pos, buf, at, SECTOR_SIZE - pos) && Untouched(v, v2, [cs[0]])
    requires Stored(v2, w, cs[1..], 0, buf, at + (SECTOR_SIZE - pos), len - (SECTOR_SIZE - pos))
    requires Untouched(v2, w, cs[1..])
    ensures Stored(v, w, cs, pos, buf, at, len) && Untouched(v, w, cs)
  {
    forall j: nat, p: nat | j < |cs| && p < SECTOR_SIZE
      ensures ByteOf(w, cs, j, p) ==
        if pos <= SECTOR_SIZE * j + p < pos + len then buf[at + SECTOR_SIZE * j + p - pos] else ByteOf(v, cs, j, p)
    {
      assert ByteOf(v2, cs, j, p) ==
        if pos <= SECTOR_SIZE * j + p < SECTOR_SIZE then buf[at + SECTOR_SIZE * j + p - pos] else ByteOf(v, cs, j, p);
      if j == 0 {
        assert w.sectors[cs[0] + 31] == v2.sectors[cs[0] + 31];
      } else {
        assert ByteOf(w, cs[1..], j - 1, p) == ByteOf(w, cs, j, p);
        assert ByteOf(v2, cs[1..], j - 1, p) == ByteOf(v2, cs, j, p);
      }
    }
  }

  // ---------------------------------------------------------------- the write theorem

  ghost predicate Written(v: Volume, r: Result, f: Handle, cs: seq<nat>, buf: seq<byte>, at: nat, len: nat)
    requires Valid(v) && at + len <= |buf|
  {
    && Valid(r.vol) && |r.vol.sectors| == |v.sectors| && Below(cs, |v.sectors| - 31)
    && r.buf == buf && r.outcome == (if StaysInside(f, len) then Done else Overrun)
    && Stored(v, r.vol, cs, f.position, buf, at, len) && Untouched(v, r.vol, cs)
    && LeftAt(f, r.file, cs, len)
  }

  /** The chain after a write of `len` bytes, and the table with it. */
  function ChainAfter(t: seq<nat>, cs: seq<nat>, pos: nat, len: nat): (seq<nat>, seq<nat>)
    requires |t| == 0x1000 && |cs| > 0 && cs[|cs| - 1] < 0x1000
  {
    var (u, ns) := Grow(t, cs[|cs| - 1], Extra(pos, len, |cs|));
    (u, cs + ns)
  }

  /** With enough free clusters on the disk the chain after a write is a chain, on the disk. */
  lemma ChainAfterIsChain(t: seq<nat>, cs: seq<nat>, pos: nat, len: nat, limit: nat)
    requires Chain(t, cs) && Below(cs, limit) && limit <= CLUSTERS && FreeBelow(t, limit) >= Extra(pos, len, |cs|)
    ensures var (u, all) := ChainAfter(t, cs, pos, len); Chain(u, all) && Below(all, limit)
  {
    GrowKeepsChain(t, cs, Extra(pos, len, |cs|), limit);
  }

  lemma FirstIsNotLater(t: seq<nat>, cs: seq<nat>)
    requires Chain(t, cs)
    ensures cs[0] !in cs[1..]
  {
    forall j | 0 < j < |cs| ensures cs[j] != cs[0] { Acyclic(t, cs, 0, j); }
  }

  /** A write that ends in the first cluster. */
  lemma WriteEndsHere(v: Volume, f: Handle, buf: seq<byte>, at: nat, len: nat, cs: seq<nat>)
    requires Valid(v) && f.position < SECTOR_SIZE && at + len <= |buf|
    requires Chain(v.table, cs) && f.cluster == cs[0] && Below(cs, |v.sectors| - 31)
    requires f.position + len < SECTOR_SIZE || (f.position + len == SECTOR_SIZE && |cs| == 1)
    ensures var r := Rw(v, f, buf, at, len, Write);
      Written(v, r, f, cs, buf, at, len) && r.vol.table == v.table
  {
    FirstIsNotLater(v.table, cs);
    ChainIsOccupied(v.table, cs, 0);
    FirstSectorStored(v, f, buf, at, len, cs);
  }

  /** The rest of the write, seen from the cluster before. */
  lemma WriteStep(v: Volume, v2: Volume, r: Result, f: Handle, g: Handle, cs: seq<nat>, later: seq<nat>,
                  buf: seq<byte>, at: nat, len: nat)
    requires |cs| > 1 && later == cs[1..]
    requires Valid(v) && Valid(v2) && |v2.sectors| == |v.sectors| && f.position < SECTOR_SIZE && at + len <= |buf|
    requires |cs| > 1 && Below(cs, |v.sectors| - 31) && f.cluster == cs[0] && cs[0] !in later
    requires len >= SECTOR_SIZE - f.position
    requires g == f.(cluster := cs[1], position := 0)
    requires Stored(v, v2, cs, f.position, buf, at, SECTOR_SIZE - f.position) && Untouched(v, v2, [cs[0]])
    requires Written(v2, r, g, later, buf, at + (SECTOR_SIZE - f.position), len - (SECTOR_SIZE - f.position))
    ensures Written(v, r, f, cs, buf, at, len)
  {
    StoredTogether(v, v2, r.vol, cs, f.position, buf, at, len);
    SameEnd(f, g, r.file, cs, len);
  }

  /** Where the rest of a transfer ends, seen from the cluster before. */
  lemma SameEnd(f: Handle, g: Handle, h: Handle, cs: seq<nat>, len: nat)
    requires f.position < SECTOR_SIZE && |cs| > 1 && len >= SECTOR_SIZE - f.position
    requires g == f.(cluster := cs[1], position := 0)
    requires LeftAt(g, h, cs[1..], len - (SECTOR_SIZE - f.position))
    ensures LeftAt(f, h, cs, len)
    ensures StaysInside(g, len - (SECTOR_SIZE - f.position)) == StaysInside(f, len)
    ensures ReadEnds(g, cs[1..], len - (SECTOR_SIZE - f.position)) == ReadEnds(f, cs, len)
  {
    var rest := len - (SECTOR_SIZE - f.position);
    assert (f.position + len) / SECTOR_SIZE == rest / SECTOR_SIZE + 1
        && (f.position + len) % SECTOR_SIZE == rest % SECTOR_SIZE;
  }

  lemma ChainAfterNext(t: seq<nat>, cs: seq<nat>, pos: nat, len: nat)
    requires Chain(t, cs) && |cs| > 1 && pos < SECTOR_SIZE && len >= SECTOR_SIZE - pos
    ensures var (u, all) := ChainAfter(t, cs, pos, len);
      |all| > 1 && all[0] == cs[0] && (u, all[1..]) == ChainAfter(t, cs[1..], 0, len - (SECTOR_SIZE - pos))
  {
    var (u, ns) := Grow(t, cs[|cs| - 1], Extra(pos, len, |cs|));
    assert (cs + ns)[1..] == cs[1..] + ns;
  }

  lemma ExtraAfterFirst(pos: nat, len: nat)
    requires pos < SECTOR_SIZE && pos + len > SECTOR_SIZE
    ensures Extra(pos, len, 1) == Extra(0, len - (SECTOR_SIZE - pos), 1) + 1
  {
  }

  lemma ChainAfterNew(t: seq<nat>, c: nat, pos: nat, len: nat)
    requires Chain(t, [c]) && pos < SECTOR_SIZE && pos + len > SECTOR_SIZE && LowestFree(t) < CLUSTERS
    ensures var (t1, n) := Occupied(t, c);
      var (u, all) := ChainAfter(t, [c], pos, len);
      |all| > 1 && all[0] == c && (u, all[1..]) == ChainAfter(t1, [n], 0, len - (SECTOR_SIZE - pos))
  {
    ExtraAfterFirst(pos, len);
    GrowStep(t, [c], Extra(pos, len, 1));
  }

  lemma SingletonChain(t: seq<nat>, n: nat)
    requires |t| == 0x1000 && 2 <= n < CLUSTERS && t[n] >= END
    ensures Chain(t, [n])
  {
  }

  /** The disk and the rest of the chain once the first cluster is full. */
  function AfterFirst(v: Volume, f: Handle, buf: seq<byte>, at: nat, cs: seq<nat>): (r: (Volume, seq<nat>))
    requires Valid(v) && f.position < SECTOR_SIZE && at + (SECTOR_SIZE - f.position) <= |buf|
    requires f.cluster + 31 < |v.sectors| && f.cluster < 0x1000 && |cs| > 0
    ensures Valid(r.0) && |r.0.sectors| == |v.sectors| && |r.1| > 0
  {
    var v1 := Transfer(v, f, buf, at, SECTOR_SIZE - f.position, Write).0;
    if |cs| > 1 then (v1, cs[1..])
    else
      var (v2, n) := Occupy(v1, f.cluster);
      (v2, [n])
  }

  /** The recursion goes on with the next cluster of the chain. */
  lemma RwGoesOnNext(v: Volume, f: Handle, buf: seq<byte>, at: nat, len: nat, cs: seq<nat>)
    requires Valid(v) && f.position < SECTOR_SIZE && at + len <= |buf| && len >= SECTOR_SIZE - f.position
    requires Chain(v.table, cs) && f.cluster == cs[0] && f.cluster + 31 < |v.sectors| && |cs| > 1
    ensures var (v2, rest) := AfterFirst(v, f, buf, at, cs);
      var room := SECTOR_SIZE - f.position;
      Rw(v, f, buf, at, len, Write)
        == Rw(v2, f.(cluster := rest[0], position := 0), buf, at + room, len - room, Write)
  {
    var v1 := Transfer(v, f, buf, at, SECTOR_SIZE - f.position, Write).0;
    assert v1.table[f.cluster] == cs[1] by {
      assert v.table[cs[0]] == cs[1];
    }
  }

  /** At the end of the chain it goes on with a new cluster. */
  lemma RwGoesOnNew(v: Volume, f: Handle, buf: seq<byte>, at: nat, len: nat, cs: seq<nat>)
    requires Valid(v) && f.position < SECTOR_SIZE && at + len <= |buf| && f.position + len > SECTOR_SIZE
    requires Chain(v.table, cs) && f.cluster == cs[0] && f.cluster + 31 < |v.sectors| && |cs| == 1
    ensures var (v2, rest) := AfterFirst(v, f, buf, at, cs);
      var room := SECTOR_SIZE - f.position;
      Rw(v, f, buf, at, len, Write)
        == Rw(v2, f.(cluster := rest[0], position := 0), buf, at + room, len - room, Write)
  {
    hide Copied, Valid, Occupied, ValidTable, EndInside;
    var v1 := Transfer(v, f, buf, at, SECTOR_SIZE - f.position, Write).0;
    assert v1.table[f.cluster] >= END by {
      assert v.table[cs[0]] >= END;
    }
  }

  /** The rest is a chain, it becomes the rest of the chain that is wanted, and there are free
      clusters for that. */
  lemma RestOfChain(v: Volume, f: Handle, buf: seq<byte>, at: nat, len: nat, cs: seq<nat>)
    requires Valid(v) && f.position < SECTOR_SIZE && at + len <= |buf| && len >= SECTOR_SIZE - f.position
    requires Chain(v.table, cs) && f.cluster == cs[0] && Below(cs, |v.sectors| - 31)
    requires |cs| == 1 ==> f.position + len > SECTOR_SIZE
    requires FreeBelow(v.table, |v.sectors| - 31) >= Extra(f.position, len, |cs|)
    ensures var (v2, rest) := AfterFirst(v, f, buf, at, cs);
      Continues(v.table, cs, f.position, len, v2.table, rest, |v.sectors| - 31)
  {
    var (v2, rest) := AfterFirst(v, f, buf, at, cs);
    if |cs| > 1 {
      RestIsOld(v.table, cs, f.position, len, |v.sectors| - 31);
    } else {
      RestIsNew(v.table, cs, f.position, len, |v.sectors| - 31);
    }
  }

  ghost predicate Continues(t: seq<nat>, cs: seq<nat>, pos: nat, len: nat, t2: seq<nat>, rest: seq<nat>, limit: nat)
    requires pos < SECTOR_SIZE && len >= SECTOR_SIZE - pos && Chain(t, cs) && limit <= CLUSTERS
  {
    && Chain(t2, rest) && Below(rest, limit)
    && FreeBelow(t2, limit) >= Extra(0, len - (SECTOR_SIZE - pos), |rest|)
    && var (u, all) := ChainAfter(t, cs, pos, len);
       |all| > 1 && all[0] == cs[0] && all[1] == rest[0]
       && (u, all[1..]) == ChainAfter(t2, rest, 0, len - (SECTOR_SIZE - pos))
  }

  lemma RestIsOld(t: seq<nat>, cs: seq<nat>, pos: nat, len: nat, limit: nat)
    requires pos < SECTOR_SIZE && len >= SECTOR_SIZE - pos && limit <= CLUSTERS
    requires Chain(t, cs) && Below(cs, limit) && |cs| > 1 && FreeBelow(t, limit) >= Extra(pos, len, |cs|)
    ensures Continues(t, cs, pos, len, t, cs[1..], limit)
  {
    TailChain(t, cs, 1);
    ChainAfterNext(t, cs, pos, len);
  }

  lemma RestIsNew(t: seq<nat>, cs: seq<nat>, pos: nat, len: nat, limit: nat)
    requires pos < SECTOR_SIZE && pos + len > SECTOR_SIZE && limit <= CLUSTERS
    requires Chain(t, cs) && |cs| == 1 && FreeBelow(t, limit) >= Extra(pos, len, 1)
    ensures var (u, n) := Occupied(t, cs[0]); Continues(t, cs, pos, len, u, [n], limit)
  {
    AppendBelow(t, cs, limit);
    assert cs == [cs[0]];
    ChainAfterNew(t, cs[0], pos, len);
    ExtraAfterFirst(pos, len);
    var (u, n) := Occupied(t, cs[0]);
    SingletonChain(u, n);
  }

  /** The first sector is stored, and nothing else outside the table is touched. */
  lemma FirstIsStored(v: Volume, f: Handle, buf: seq<byte>, at: nat, cs: seq<nat>, all: seq<nat>)
    requires Valid(v) && f.position < SECTOR_SIZE && at + (SECTOR_SIZE - f.position) <= |buf|
    requires |cs| > 0 && |all| > 0 && f.cluster == all[0] && f.cluster < 0x1000
    requires Below(all, |v.sectors| - 31) && all[0] !in all[1..]
    ensures var v2 := AfterFirst(v, f, buf, at, cs).0;
      Stored(v, v2, all, f.position, buf, at, SECTOR_SIZE - f.position) && Untouched(v, v2, [all[0]])
  {
    var v1 := Transfer(v, f, buf, at, SECTOR_SIZE - f.position, Write).0;
    FirstSectorStored(v, f, buf, at, SECTOR_SIZE - f.position, all);
    var v2 := AfterFirst(v, f, buf, at, cs).0;
    forall j: nat, p: nat | j < |all| && p < SECTOR_SIZE ensures ByteOf(v2, all, j, p) == ByteOf(v1, all, j, p) {
    }
  }

  lemma NothingNeeded(t: seq<nat>, cs: seq<nat>, pos: nat, len: nat)
    requires |t| == 0x1000 && |cs| > 0 && cs[|cs| - 1] < 0x1000 && pos + len <= SECTOR_SIZE * |cs|
    ensures ChainAfter(t, cs, pos, len) == (t, cs)
  {
    assert cs + [] == cs;
  }

  /** The recursion goes on behind the first cluster. */
  lemma RwGoesOn(v: Volume, f: Handle, buf: seq<byte>, at: nat, len: nat, cs: seq<nat>)
    requires Valid(v) && f.position < SECTOR_SIZE && at + len <= |buf| && len >= SECTOR_SIZE - f.position
    requires Chain(v.table, cs) && f.cluster == cs[0] && f.cluster + 31 < |v.sectors|
    requires |cs| == 1 ==> f.position + len > SECTOR_SIZE
    ensures var ((v2, rest), room) := (AfterFirst(v, f, buf, at, cs), SECTOR_SIZE - f.position);
      && rest[0] < 0x1000
      && Rw(v, f, buf, at, len, Write)
           == Rw(v2, f.(cluster := rest[0], position := 0), buf, at + room, len - room, Write)
  {
    hide Rw;
    if |cs| > 1 {
      RwGoesOnNext(v, f, buf, at, len, cs);
    } else {
      RwGoesOnNew(v, f, buf, at, len, cs);
    }
  }

  /** The first cluster of a longer write: the volume and the rest of the chain that the recursion
      goes on with, and the chain that the write will end up with. */
  lemma FirstClusterFilled(v: Volume, f: Handle, buf: seq<byte>, at: nat, len: nat, cs: seq<nat>)
    returns (v2: Volume, rest: seq<nat>, u: seq<nat>, all: seq<nat>, later: seq<nat>)
    requires Valid(v) && f.position < SECTOR_SIZE && at + len <= |buf| && len >= SECTOR_SIZE - f.position
    requires Chain(v.table, cs) && f.cluster == cs[0] && Below(cs, |v.sectors| - 31)
    requires |cs| == 1 ==> f.position + len > SECTOR_SIZE
    requires FreeBelow(v.table, |v.sectors| - 31) >= Extra(f.position, len, |cs|)
    ensures Valid(v2) && |v2.sectors| == |v.sectors|
    ensures Chain(v2.table, rest) && Below(rest, |v.sectors| - 31)
    ensures FreeBelow(v2.table, |v.sectors| - 31) >= Extra(0, len - (SECTOR_SIZE - f.position), |rest|)
    ensures |all| > 1 && all[0] == f.cluster && all[1] == rest[0] && Below(all, |v.sectors| - 31) && all[0] !in later
    ensures (u, all) == ChainAfter(v.table, cs, f.position, len) && Chain(u, all) && later == all[1..]
    ensures (u, later) == ChainAfter(v2.table, rest, 0, len - (SECTOR_SIZE - f.position))
    ensures Stored(v, v2, all, f.position, buf, at, SECTOR_SIZE - f.position) && Untouched(v, v2, [all[0]])
    ensures Rw(v, f, buf, at, len, Write)
         == Rw(v2, f.(cluster := rest[0], position := 0), buf, at + (SECTOR_SIZE - f.position),
               len - (SECTOR_SIZE - f.position), Write)
  {
    hide Rw, Occupied, Grow, Transfer, Extra, Unused, AfterFirst, FreeBelow, Occupy, Untouched, Stored;
    v2, rest := AfterFirst(v, f, buf, at, cs).0, AfterFirst(v, f, buf, at, cs).1;
    u, all := ChainAfter(v.table, cs, f.position, len).0, ChainAfter(v.table, cs, f.position, len).1;
    later := all[1..];
    ChainAfterIsChain(v.table, cs, f.position, len, |v.sectors| - 31);
    FirstIsNotLater(u, all);
    RestOfChain(v, f, buf, at, len, cs);
    RwGoesOn(v, f, buf, at, len, cs);
    FirstIsStored(v, f, buf, at, cs, all);
  }

  /** A write along a chain, with as many free clusters on the disk as it needs: it stores exactly the
      given bytes, appends the lowest free clusters and no more than it needs, and touches nothing else. */
  lemma {:induction false} WriteEffect(v: Volume, f: Handle, buf: seq<byte>, at: nat, len: nat, cs: seq<nat>, r: Result)
    returns (all: seq<nat>)
    requires Valid(v) && f.position < SECTOR_SIZE && at + len <= |buf|
    requires Chain(v.table, cs) && f.cluster == cs[0] && Below(cs, |v.sectors| - 31)
    requires FreeBelow(v.table, |v.sectors| - 31) >= Extra(f.position, len, |cs|)
    requires r == Rw(v, f, buf, at, len, Write)
    ensures (r.vol.table, all) == ChainAfter(v.table, cs, f.position, len) && Chain(r.vol.table, all)
    ensures Written(v, r, f, all, buf, at, len)
    decreases len
  {
    hide Rw, ChainAfter;
    if f.position + len < SECTOR_SIZE || (f.position + len == SECTOR_SIZE && |cs| == 1) {
      all := cs;
      NothingNeeded(v.table, cs, f.position, len);
      WriteEndsHere(v, f, buf, at, len, cs);
    } else {
      var room := SECTOR_SIZE - f.position;
      var v2, rest, u, chain, later := FirstClusterFilled(v, f, buf, at, len, cs);
      var g := f.(cluster := rest[0], position := 0);
      var tail := WriteEffect(v2, g, buf, at + room, len - room, rest, r);
      assert tail == later;
      WriteStep(v, v2, r, f, g, chain, later, buf, at, len);
      all := chain;
    }
  }

  lemma WriteMarksHere(v: Volume, f: Handle, buf: seq<byte>, at: nat, len: nat, cs: seq<nat>)
    requires Valid(v) && f.position < SECTOR_SIZE && at + len <= |buf|
    requires Chain(v.table, cs) && f.cluster == cs[0] && Below(cs, |v.sectors| - 31)
    requires f.position + len < SECTOR_SIZE || (f.position + len == SECTOR_SIZE && |cs| == 1)
    ensures var r := Rw(v, f, buf, at, len, Write);
      r.outcome == Done ==> r.file.eof == (f.eof || f.position + len == 512 * |cs|)
  {
    assert |cs| > 1 ==> v.table[cs[0]] == cs[1] && 2 <= cs[1] < END;
  }

  /** A write that is done leaves the end-of-file mark exactly when it fills the chain that it ends up with. */
  lemma {:induction false} WriteMarksEnd(v: Volume, f: Handle, buf: seq<byte>, at: nat, len: nat, cs: seq<nat>,
                                         r: Result)
    requires Valid(v) && f.position < SECTOR_SIZE && at + len <= |buf|
    requires Chain(v.table, cs) && f.cluster == cs[0] && Below(cs, |v.sectors| - 31)
    requires FreeBelow(v.table, |v.sectors| - 31) >= Extra(f.position, len, |cs|)
    requires r == Rw(v, f, buf, at, len, Write) && r.outcome == Done
    ensures r.file.eof == (f.eof || f.position + len == 512 * |ChainAfter(v.table, cs, f.position, len).1|)
    decreases len
  {
    hide Rw, ChainAfter, Stored, Untouched, FreeBelow, Extra;
    if f.position + len < SECTOR_SIZE || (f.position + len == SECTOR_SIZE && |cs| == 1) {
      NothingNeeded(v.table, cs, f.position, len);
      WriteMarksHere(v, f, buf, at, len, cs);
    } else {
      var room := SECTOR_SIZE - f.position;
      var v2, rest, u, chain, later := FirstClusterFilled(v, f, buf, at, len, cs);
      var g := f.(cluster := rest[0], position := 0);
      WriteMarksEnd(v2, g, buf, at + room, len - room, rest, r);
    }
  }

  // ---------------------------------------------------------------- the read theorem

  /** The buffer holds the bytes of the chain from `pos` on, and is as before elsewhere. */
  ghost predicate Fetched(v: Volume, buf: seq<byte>, out: seq<byte>, cs: seq<nat>, pos: nat, at: nat, len: nat)
    requires Valid(v) && Below(cs, |v.sectors| - 31) && at + len <= |buf|
  {
    && |out| == |buf|
    && (forall j: nat, p: nat | j < |cs| && p < SECTOR_SIZE && pos <= SECTOR_SIZE * j + p < pos + len ::
          out[at + SECTOR_SIZE * j + p - pos] == ByteOf(v, cs, j, p))
    && (forall k | 0 <= k < |buf| && !(at <= k < at + len) :: out[k] == buf[k])
  }

  /** A read comes to its end: it stays inside the length, or in the last cluster of the chain. */
  predicate ReadEnds(f: Handle, cs: seq<nat>, len: nat) {
    StaysInside(f, len) || (f.position + len) / SECTOR_SIZE == |cs| - 1
  }

  ghost predicate ReadDone(v: Volume, r: Result, f: Handle, cs: seq<nat>, buf: seq<byte>, at: nat, len: nat)
    requires Valid(v) && at + len <= |buf|
  {
    && r.vol == v && Below(cs, |v.sectors| - 31) && Fetched(v, buf, r.buf, cs, f.position, at, len)
    && r.outcome == (if ReadEnds(f, cs, len) then Done else Overrun)
    && LeftAt(f, r.file, cs, len)
  }

  lemma ReadEndsHere(v: Volume, f: Handle, buf: seq<byte>, at: nat, len: nat, cs: seq<nat>)
    requires Valid(v) && f.position < SECTOR_SIZE && at + len <= |buf|
    requires Chain(v.table, cs) && f.cluster == cs[0] && Below(cs, |v.sectors| - 31)
    requires f.position + len < SECTOR_SIZE || (f.position + len == SECTOR_SIZE && |cs| == 1)
    ensures ReadDone(v, Rw(v, f, buf, at, len, Read), f, cs, buf, at, len)
  {
    hide Rw, Fetched, ReadEnds, LeftAt;
    FetchesHere(v, f, buf, at, len, cs);
    ReadOutcomeHere(v, f, buf, at, len, cs);
  }

  lemma FetchesHere(v: Volume, f: Handle, buf: seq<byte>, at: nat, len: nat, cs: seq<nat>)
    requires Valid(v) && f.position + len <= SECTOR_SIZE && f.position < SECTOR_SIZE && at + len <= |buf|
    requires Chain(v.table, cs) && f.cluster == cs[0] && Below(cs, |v.sectors| - 31)
    requires f.position + len == SECTOR_SIZE ==> |cs| == 1
    ensures var r := Rw(v, f, buf, at, len, Read); r.vol == v && Fetched(v, buf, r.buf, cs, f.position, at, len)
  {
    hide Rw;
    RestIsEnd(v, f, buf, at, len, cs);
  }

  /** A read that ends in this cluster gives what the transfer from its sector gives. */
  lemma RestIsEnd(v: Volume, f: Handle, buf: seq<byte>, at: nat, len: nat, cs: seq<nat>)
    requires Valid(v) && f.position + len <= SECTOR_SIZE && f.position < SECTOR_SIZE && at + len <= |buf|
    requires Chain(v.table, cs) && f.cluster == cs[0] && Below(cs, |v.sectors| - 31)
    requires f.position + len == SECTOR_SIZE ==> |cs| == 1
    ensures var r := Rw(v, f, buf, at, len, Read);
      r.vol == v && r.buf == if len == 0 then buf else Transfer(v, f, buf, at, len, Read).1
  {
    hide Copied;
  }

  lemma ReadOutcomeHere(v: Volume, f: Handle, buf: seq<byte>, at: nat, len: nat, cs: seq<nat>)
    requires Valid(v) && f.position < SECTOR_SIZE && at + len <= |buf|
    requires Chain(v.table, cs) && f.cluster == cs[0] && Below(cs, |v.sectors| - 31)
    requires f.position + len < SECTOR_SIZE || (f.position + len == SECTOR_SIZE && |cs| == 1)
    ensures var r := Rw(v, f, buf, at, len, Read);
      r.outcome == (if ReadEnds(f, cs, len) then Done else Overrun) && LeftAt(f, r.file, cs, len)
  {
    hide Copied;
    assert |cs| > 1 ==> v.table[cs[0]] == cs[1] && 2 <= cs[1] < END;
    if len > 0 {
      assert f.position + len < SECTOR_SIZE ==> (f.position + len) % SECTOR_SIZE == f.position + len;
    }
  }

  /** Behind the first cluster the read goes on in the next. */
  lemma ReadGoesOn(v: Volume, f: Handle, buf: seq<byte>, at: nat, len: nat, cs: seq<nat>)
    requires Valid(v) && f.position < SECTOR_SIZE && at + len <= |buf| && len >= SECTOR_SIZE - f.position
    requires Chain(v.table, cs) && f.cluster == cs[0] && Below(cs, |v.sectors| - 31) && |cs| > 1
    ensures var room := SECTOR_SIZE - f.position;
      var buf1 := Transfer(v, f, buf, at, room, Read).1;
      && Fetched(v, buf, buf1, cs, f.position, at, room)
      && Rw(v, f, buf, at, len, Read) == Rw(v, f.(cluster := cs[1], position := 0), buf1, at + room, len - room, Read)
  {
    assert v.table[cs[0]] == cs[1];
  }

  lemma FetchedTogether(v: Volume, buf: seq<byte>, mid: seq<byte>, out: seq<byte>, cs: seq<nat>,
                        pos: nat, at: nat, len: nat)
    requires Valid(v) && Below(cs, |v.sectors| - 31) && |cs| > 1
    requires pos < SECTOR_SIZE && at + len <= |buf| && len >= SECTOR_SIZE - pos
    requires Fetched(v, buf, mid, cs, pos, at, SECTOR_SIZE - pos)
    requires Fetched(v, mid, out, cs[1..], 0, at + (SECTOR_SIZE - pos), len - (SECTOR_SIZE - pos))
    ensures Fetched(v, buf, out, cs, pos, at, len)
  {
    forall j: nat, p: nat | j < |cs| && p < SECTOR_SIZE && pos <= SECTOR_SIZE * j + p < pos + len
      ensures out[at + SECTOR_SIZE * j + p - pos] == ByteOf(v, cs, j, p)
    {
      if j == 0 {
        assert mid[at + p - pos] == ByteOf(v, cs, 0, p);
      } else {
        assert ByteOf(v, cs[1..], j - 1, p) == ByteOf(v, cs, j, p);
      }
    }
  }

  /** A read inside the clusters of a chain gives their bytes and changes nothing on the disk; it is done
      exactly when it stays inside the length or ends in the last cluster, and else runs on. */
  lemma {:induction false} ReadEffect(v: Volume, f: Handle, buf: seq<byte>, at: nat, len: nat, cs: seq<nat>, r: Result)
    requires Valid(v) && f.position < SECTOR_SIZE && at + len <= |buf|
    requires Chain(v.table, cs) && f.cluster == cs[0] && Below(cs, |v.sectors| - 31)
    requires f.position + len <= SECTOR_SIZE * |cs|
    requires r == Rw(v, f, buf, at, len, Read)
    ensures ReadDone(v, r, f, cs, buf, at, len)
    decreases len
  {
    hide Rw, Fetched, LeftAt, StaysInside, ReadEnds;
    if f.position + len < SECTOR_SIZE || (f.position + len == SECTOR_SIZE && |cs| == 1) {
      ReadEndsHere(v, f, buf, at, len, cs);
    } else {
      var room := SECTOR_SIZE - f.position;
      var g := f.(cluster := cs[1], position := 0);
      var buf1 := Transfer(v, f, buf, at, room, Read).1;
      ReadGoesOn(v, f, buf, at, len, cs);
      TailChain(v.table, cs, 1);
      ReadEffect(v, g, buf1, at + room, len - room, cs[1..], r);
      FetchedTogether(v, buf, buf1, r.buf, cs, f.position, at, len);
      SameEnd(f, g, r.file, cs, len);
    }
  }

  /** The read takes the last byte of the chain, or ends inside a sector beyond the length. */
  predicate SeesEnd(f: Handle, cs: seq<nat>, len: nat) {
    var last := (f.position + len) % 512;
    f.position + len == 512 * |cs| || (len > 0 && last != 0 && (f.isDir || last > f.length))
  }

  lemma SeesEndHere(v: Volume, f: Handle, buf: seq<byte>, at: nat, len: nat, cs: seq<nat>)
    requires Valid(v) && f.position < SECTOR_SIZE && at + len <= |buf|
    requires Chain(v.table, cs) && f.cluster == cs[0] && Below(cs, |v.sectors| - 31)
    requires f.position + len < SECTOR_SIZE || (f.position + len == SECTOR_SIZE && |cs| == 1)
    ensures var r := Rw(v, f, buf, at, len, Read);
      r.outcome == Done ==> r.file.eof == (f.eof || SeesEnd(f, cs, len))
  {
    assert |cs| > 1 ==> v.table[cs[0]] == cs[1] && 2 <= cs[1] < END;
    if len > 0 {
      assert f.position + len < SECTOR_SIZE ==> (f.position + len) % SECTOR_SIZE == f.position + len;
    }
  }

  lemma SeesEndLater(f: Handle, g: Handle, cs: seq<nat>, len: nat)
    requires f.position < SECTOR_SIZE && len >= SECTOR_SIZE - f.position && |cs| > 1
    requires g.position == 0 && g.length == f.length && g.isDir == f.isDir
    ensures SeesEnd(g, cs[1..], len - (SECTOR_SIZE - f.position)) == SeesEnd(f, cs, len)
  {
    var rest := len - (SECTOR_SIZE - f.position);
    assert f.position + len == rest + SECTOR_SIZE && (rest + SECTOR_SIZE) % SECTOR_SIZE == rest % SECTOR_SIZE;
  }

  /** A read that is done leaves the end-of-file mark exactly when it sees the end. */
  lemma {:induction false} ReadMarksEnd(v: Volume, f: Handle, buf: seq<byte>, at: nat, len: nat, cs: seq<nat>,
                                        r: Result)
    requires Valid(v) && f.position < SECTOR_SIZE && at + len <= |buf|
    requires Chain(v.table, cs) && f.cluster == cs[0] && Below(cs, |v.sectors| - 31)
    requires f.position + len <= SECTOR_SIZE * |cs|
    requires r == Rw(v, f, buf, at, len, Read) && r.outcome == Done
    ensures r.file.eof == (f.eof || SeesEnd(f, cs, len))
    decreases len
  {
    hide Rw, SeesEnd, Fetched;
    if f.position + len < SECTOR_SIZE || (f.position + len == SECTOR_SIZE && |cs| == 1) {
      SeesEndHere(v, f, buf, at, len, cs);
    } else {
      var room := SECTOR_SIZE - f.position;
      var g := f.(cluster := cs[1], position := 0);
      ReadGoesOn(v, f, buf, at, len, cs);
      TailChain(v.table, cs, 1);
      ReadMarksEnd(v, g, Transfer(v, f, buf, at, room, Read).1, at + room, len - room, cs[1..], r);
      SeesEndLater(f, g, cs, len);
    }
  }

  // ---------------------------------------------------------------- whole files

  /** A write through a handle at cluster `i` of a file: the file's bytes from that offset on are the
      given ones, the others are as before, and so are all sectors before the handle's cluster. */
  lemma WriteFile(v: Volume, f: Handle, buf: seq<byte>, len: nat, cs: seq<nat>, i: nat) returns (all: seq<nat>)
    requires Valid(v) && f.position < SECTOR_SIZE && len <= |buf|
    requires Chain(v.table, cs) && i < |cs| && f.cluster == cs[i] && Below(cs, |v.sectors| - 31)
    requires FreeBelow(v.table, |v.sectors| - 31) >= Extra(f.position, len, |cs| - i)
    ensures var r := Rw(v, f, buf, 0, len, Write);
      && (r.vol.table, all) == ChainAfter(v.table, cs, SECTOR_SIZE * i + f.position, len)
      && Chain(r.vol.table, all) && cs <= all && Below(all, |v.sectors| - 31)
      && r.outcome == (if StaysInside(f, len) then Done else Overrun)
      && |r.vol.sectors| == |v.sectors|
      && Stored(v, r.vol, all, SECTOR_SIZE * i + f.position, buf, 0, len)
      && Untouched(v, r.vol, all[i..]) && LeftAt(f, r.file, all[i..], len)
  {
    hide Rw, ChainAfter, Stored, Untouched, LeftAt, StaysInside;
    var r := Rw(v, f, buf, 0, len, Write);
    TailChain(v.table, cs, i);
    assert cs[i..][|cs| - i - 1] == cs[|cs| - 1];
    var tail := WriteEffect(v, f, buf, 0, len, cs[i..], r);
    all := cs[..i] + tail;
    WholeChain(v.table, cs, i, f.position, len, |v.sectors| - 31);
    StoredFrom(v, r.vol, all, tail, i, f.position, buf, len);
  }

  /** The chain of the whole file after a write from cluster `i` on. */
  lemma WholeChain(t: seq<nat>, cs: seq<nat>, i: nat, pos: nat, len: nat, limit: nat)
    requires Chain(t, cs) && Below(cs, limit) && limit <= CLUSTERS && i < |cs|
    requires FreeBelow(t, limit) >= Extra(pos, len, |cs| - i)
    ensures cs[i..][|cs| - i - 1] == cs[|cs| - 1]
    ensures var ((u, tail), at) := (ChainAfter(t, cs[i..], pos, len), SECTOR_SIZE * i + pos);
      var all := cs[..i] + tail;
      ChainAfter(t, cs, at, len) == (u, all) && Chain(u, all) && Below(all, limit) && cs <= all && all[i..] == tail
  {
    hide FreeBelow, ChainAfter, Grow;
    assert Extra(SECTOR_SIZE * i + pos, len, |cs|) == Extra(pos, len, |cs| - i);
    ChainAfterIsChain(t, cs, SECTOR_SIZE * i + pos, len, limit);
    ChainAfterFrom(t, cs, i, pos, len);
  }

  lemma ChainAfterFrom(t: seq<nat>, cs: seq<nat>, i: nat, pos: nat, len: nat)
    requires |t| == 0x1000 && i < |cs| && cs[|cs| - 1] < 0x1000
    ensures var (u, tail) := ChainAfter(t, cs[i..], pos, len);
      ChainAfter(t, cs, SECTOR_SIZE * i + pos, len) == (u, cs[..i] + tail) && (cs[..i] + tail)[i..] == tail
      && cs <= cs[..i] + tail
  {
    assert Extra(SECTOR_SIZE * i + pos, len, |cs|) == Extra(pos, len, |cs| - i);
    var (u, ns) := Grow(t, cs[|cs| - 1], Extra(pos, len, |cs| - i));
    assert cs[..i] + (cs[i..] + ns) == cs + ns;
  }

  lemma StoredFrom(v: Volume, w: Volume, all: seq<nat>, tail: seq<nat>, i: nat, pos: nat, buf: seq<byte>, len: nat)
    requires Valid(v) && Valid(w) && |w.sectors| == |v.sectors| && Below(all, |v.sectors| - 31) && len <= |buf|
    requires Chain(w.table, all) && i < |all| && tail == all[i..]
    requires Stored(v, w, tail, pos, buf, 0, len) && Untouched(v, w, tail)
    ensures Stored(v, w, all, SECTOR_SIZE * i + pos, buf, 0, len)
  {
    forall j: nat, p: nat | j < |all| && p < SECTOR_SIZE
      ensures ByteOf(w, all, j, p) ==
        if SECTOR_SIZE * i + pos <= SECTOR_SIZE * j + p < SECTOR_SIZE * i + pos + len
        then buf[SECTOR_SIZE * j + p - (SECTOR_SIZE * i + pos)] else ByteOf(v, all, j, p)
    {
      if j < i {
        forall k | i <= k < |all| ensures all[k] != all[j] { Acyclic(w.table, all, j, k); }
        assert w.sectors[all[j] + 31] == v.sectors[all[j] + 31];
      } else {
        assert ByteOf(w, tail, j - i, p) == ByteOf(w, all, j, p) && ByteOf(v, tail, j - i, p) == ByteOf(v, all, j, p);
      }
    }
  }
}
