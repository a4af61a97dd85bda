/** Runs of file creations, reads and writes: chains stay apart and files keep their bytes. */
module FatRuns {
  import opened Bitmaps
  import opened FatEntries
  import opened FatChains
  import opened FatFiles

  // ---------------------------------------------------------------- one transfer

  /** `w` and `g` are where the recursion goes on: in the next cluster of the chain, or for a write at
      the chain's end in a newly occupied one. */
  ghost predicate Follows(v: Volume, f: Handle, w: Volume, g: Handle, dir: Direction)
    requires |v.table| == 0x1000 && f.cluster < 0x1000
  {
    && Valid(w) && |w.sectors| == |v.sectors| && g.cluster < 0x1000 && g.position == 0
    && var next := v.table[f.cluster];
       if next < END then w.table == v.table && g.cluster == next > 0
       else dir == Write && (w.table, g.cluster) == Occupied(v.table, f.cluster)
  }

  /** One level of the recursion either ends it with the table as it is, or goes on. */
  lemma OneLevel(v: Volume, f: Handle, buf: seq<byte>, at: nat, len: nat, dir: Direction, r: Result)
    returns (ended: bool, w: Volume, g: Handle, out: seq<byte>)
    requires Valid(v) && f.cluster < 0x1000 && f.position < SECTOR_SIZE && at + len <= |buf|
    requires r == Rw(v, f, buf, at, len, dir)
    ensures ended ==> r.vol.table == v.table
    ensures !ended ==> len >= SECTOR_SIZE - f.position && |out| == |buf| && f.cluster + 31 < |v.sectors|
    ensures !ended ==> Follows(v, f, w, g, dir)
    ensures !ended ==> r == Rw(w, g, out, at + (SECTOR_SIZE - f.position), len - (SECTOR_SIZE - f.position), dir)
  {
    hide Transfer, Occupied, LowestFree;
    ended, w, g, out := true, v, f, buf;
    var room := SECTOR_SIZE - f.position;
    if len >= room && f.cluster + 31 < |v.sectors| {
      var (v1, buf1) := Transfer(v, f, buf, at, room, dir);
      var next := v.table[f.cluster];
      if !(next == 0 || (next >= END && !(len - room > 0 && dir == Write))) {
        var (v2, next2) := if next >= END then Occupy(v1, f.cluster) else (v1, next);
        ended, w, g, out := false, v2, f.(cluster := next2, position := 0), buf1;
      }
    }
  }

  lemma FullTable(t: seq<nat>, chain: nat)
    requires |t| == 0x1000 && chain < 0x1000 && LowestFree(t) == CLUSTERS
    ensures Occupied(t, chain) == (t, CLUSTERS)
  {
  }

  lemma OffDiskKeepsTable(v: Volume, f: Handle, buf: seq<byte>, at: nat, len: nat, dir: Direction)
    requires Valid(v) && f.cluster == CLUSTERS && f.position < SECTOR_SIZE && at + len <= |buf|
    ensures Rw(v, f, buf, at, len, dir).vol.table == v.table
  {
  }

  /** What a cluster of a file leads to. */
  lemma OnChain(t: seq<nat>, files: seq<seq<nat>>, i: nat, k: nat)
    requires Files(t, files) && i < |files| && k < |files[i]|
    ensures |t| == 0x1000 && 2 <= files[i][k] < CLUSTERS
    ensures if k + 1 < |files[i]| then t[files[i][k]] == files[i][k + 1] < END else t[files[i][k]] >= END
  {
    assert Chain(t, files[i]);
    assert k + 1 < |files[i]| ==> t[files[i][k]] == files[i][k + 1] && files[i][k + 1] < CLUSTERS;
  }

  /** Whatever its outcome, a transfer through a handle on file `i` leaves every chain a chain and the
      chains apart, appends `more` to the chain of that file, and leaves the others as they are. */
  lemma {:induction false} TransferKeepsFiles(v: Volume, f: Handle, buf: seq<byte>, at: nat, len: nat, dir: Direction,
                                              r: Result, files: seq<seq<nat>>, i: nat, k: nat)
    returns (more: seq<nat>)
    requires Valid(v) && f.position < SECTOR_SIZE && at + len <= |buf| && Files(v.table, files)
    requires i < |files| && k < |files[i]| && f.cluster == files[i][k] < 0x1000 && r == Rw(v, f, buf, at, len, dir)
    ensures Files(r.vol.table, files[i := files[i] + more]) && (dir == Read ==> more == [])
    decreases len
  {
    hide Rw, Files, Occupied;
    OnChain(v.table, files, i, k);
    more := [];
    assert files[i := files[i] + []] == files by { assert files[i] + [] == files[i]; }
    var ended, w, g, out := OneLevel(v, f, buf, at, len, dir, r);
    if !ended {
      var room := SECTOR_SIZE - f.position;
      if k + 1 < |files[i]| {
        more := TransferKeepsFiles(w, g, out, at + room, len - room, dir, r, files, i, k + 1);
      } else if LowestFree(v.table) < CLUSTERS {
        AppendKeepsFiles(v.table, files, i);
        var longer := files[i := files[i] + [g.cluster]];
        var rest := TransferKeepsFiles(w, g, out, at + room, len - room, dir, r, longer, i, k + 1);
        more := [g.cluster] + rest;
        assert longer[i := longer[i] + rest] == files[i := files[i] + more] by {
          assert files[i] + [g.cluster] + rest == files[i] + ([g.cluster] + rest);
        }
      } else {
        FullTable(v.table, f.cluster);
        OffDiskKeepsTable(w, g, out, at + room, len - room, dir);
      }
    }
  }

  // ---------------------------------------------------------------- runs

  /** A file is created, or bytes move through a handle that is on file `i`. */
  datatype Op = Create | Access(i: nat, f: Handle, buf: seq<byte>, len: nat, dir: Direction)

  /** The volume, and the first cluster of each file. */
  datatype State = State(v: Volume, heads: seq<nat>)

  /** The chains of the files with these heads. */
  ghost predicate ChainsOf(s: State, files: seq<seq<nat>>) {
    && Valid(s.v) && Files(s.v.table, files) && |files| == |s.heads|
    && forall i :: 0 <= i < |files| ==> files[i][0] == s.heads[i]
  }

  ghost predicate Legal(s: State, op: Op) {
    Valid(s.v) && match op
    case Create => true
    case Access(i, f, buf, len, _) =>
      && i < |s.heads| && f.position < SECTOR_SIZE && len <= |buf| && f.cluster < 0x1000
      && forall files | ChainsOf(s, files) :: f.cluster in files[i]
  }

  ghost function Do(s: State, op: Op): State
    requires Legal(s, op)
  {
    match op
    case Create =>
      var (v, n) := Occupy(s.v, 0);
      State(v, if n == CLUSTERS then s.heads else s.heads + [n])
    case Access(_, f, buf, len, dir) => s.(v := Rw(s.v, f, buf, 0, len, dir).vol)
  }

  /** One step keeps every file a chain of its own; files are only added, and chains only grow. */
  lemma StepKeepsChains(s: State, op: Op, files: seq<seq<nat>>) returns (files': seq<seq<nat>>)
    requires Legal(s, op) && ChainsOf(s, files)
    ensures ChainsOf(Do(s, op), files') && Grown(files, files')
  {
    match op
    case Create =>
      if LowestFree(s.v.table) < CLUSTERS {
        CreateKeepsFiles(s.v.table, files);
        files' := files + [[LowestFree(s.v.table)]];
      } else {
        files' := files;
      }
    case Access(i, f, buf, len, dir) =>
      assert f.cluster in files[i];
      var k :| 0 <= k < |files[i]| && files[i][k] == f.cluster;
      var more := TransferKeepsFiles(s.v, f, buf, 0, len, dir, Rw(s.v, f, buf, 0, len, dir), files, i, k);
      files' := files[i := files[i] + more];
  }

  ghost predicate Grown(files: seq<seq<nat>>, files': seq<seq<nat>>) {
    |files| <= |files'| && forall i :: 0 <= i < |files| ==> files[i] <= files'[i]
  }

  ghost predicate LegalRun(s: State, ops: seq<Op>)
    decreases |ops|
  {
    ops == [] || (Legal(s, ops[0]) && LegalRun(Do(s, ops[0]), ops[1..]))
  }

  ghost function DoAll(s: State, ops: seq<Op>): State
    requires LegalRun(s, ops)
    decreases |ops|
  {
    if ops == [] then s else DoAll(Do(s, ops[0]), ops[1..])
  }

  /** Over every run the chains of all files are acyclic, end-marked and pairwise disjoint, also when
      the disk is full or a transfer fails: `Files` says so, and `Acyclic` that a chain has no cycle. */
  lemma {:induction false} EveryRunKeepsChains(s: State, ops: seq<Op>, files: seq<seq<nat>>)
    returns (files': seq<seq<nat>>)
    requires LegalRun(s, ops) && ChainsOf(s, files)
    ensures ChainsOf(DoAll(s, ops), files') && Grown(files, files')
    decreases |ops|
  {
    if ops == [] {
      files' := files;
    } else {
      var mid := StepKeepsChains(s, ops[0], files);
      files' := EveryRunKeepsChains(Do(s, ops[0]), ops[1..], mid);
    }
  }

  // ---------------------------------------------------------------- other files

  /** The clusters of another file are not among those that a file's chain has grown by. */
  lemma NotInGrown(t: seq<nat>, files: seq<seq<nat>>, i: nat, n: nat, limit: nat, j: nat, m: nat)
    requires Files(t, files) && i < |files| && j < |files| && j != i && m < |files[j]|
    requires limit <= CLUSTERS && FreeBelow(t, limit) >= n
    ensures files[j][m] !in files[i] + Grow(t, files[i][|files[i]| - 1], n).1
  {
    var cs := files[i];
    var ns := Grow(t, cs[|cs| - 1], n).1;
    ChainIsOccupied(t, cs, |cs| - 1);
    ChainIsOccupied(t, files[j], m);
    forall l | 0 <= l < n ensures ns[l] != files[j][m] {
      GrowTakesFree(t, cs[|cs| - 1], n, limit, l);
    }
  }

  /** With enough free clusters, a write to file `i` leaves every sector of every other file alone. */
  lemma WriteKeepsOtherFiles(v: Volume, f: Handle, buf: seq<byte>, len: nat, files: seq<seq<nat>>, i: nat, k: nat,
                             j: nat, m: nat)
    requires Valid(v) && f.position < SECTOR_SIZE && len <= |buf| && Files(v.table, files)
    requires i < |files| && k < |files[i]| && f.cluster == files[i][k] && Below(files[i], |v.sectors| - 31)
    requires FreeBelow(v.table, |v.sectors| - 31) >= Extra(f.position, len, |files[i]| - k)
    requires j < |files| && j != i && m < |files[j]| && files[j][m] + 31 < |v.sectors|
    ensures Rw(v, f, buf, 0, len, Write).vol.sectors[files[j][m] + 31] == v.sectors[files[j][m] + 31]
  {
    hide Rw, Grow, Stored, LeftAt, StaysInside;
    var n := Extra(f.position, len, |files[i]| - k);
    var all := WriteFile(v, f, buf, len, files[i], k);
    NotInGrown(v.table, files, i, n, |v.sectors| - 31, j, m);
    assert all == files[i] + Grow(v.table, files[i][|files[i]| - 1], n).1;
    assert files[j][m] !in all[k..];
  }

  // ---------------------------------------------------------------- where the bytes lie

  /** The data area begins at sector 33 with cluster 2. After a write byte `k` of the buffer is in the sector of
      its cluster, at its place in the file modulo 512. */
  lemma WrittenToDisk(v: Volume, f: Handle, buf: seq<byte>, len: nat, cs: seq<nat>, i: nat, k: nat)
    returns (all: seq<nat>)
    requires Valid(v) && f.position < 512 && len <= |buf| && k < len
    requires Chain(v.table, cs) && i < |cs| && f.cluster == cs[i] && Below(cs, |v.sectors| - 31)
    requires FreeBelow(v.table, |v.sectors| - 31) >= Extra(f.position, len, |cs| - i)
    ensures var (r, at) := (Rw(v, f, buf, 0, len, Write), 512 * i + f.position + k);
      && cs <= all && Chain(r.vol.table, all) && at / 512 < |all|
      && var s := 33 + (all[at / 512] - 2);
         0 <= s < |r.vol.sectors| && |r.vol.sectors[s]| == 512 && r.vol.sectors[s][at % 512] == buf[k]
  {
    hide Rw, ChainAfter, Untouched, LeftAt, StaysInside, FreeBelow;
    all := WriteFile(v, f, buf, len, cs, i);
    ChainAfterLength(v.table, cs, SECTOR_SIZE * i + f.position, len);
    ExtraFrom(f.position, len, i, |cs|);
    var r, at := Rw(v, f, buf, 0, len, Write), SECTOR_SIZE * i + f.position + k;
    assert at == SECTOR_SIZE * (at / SECTOR_SIZE) + at % SECTOR_SIZE;
    assert ByteOf(r.vol, all, at / SECTOR_SIZE, at % SECTOR_SIZE) == buf[k];
  }

  /** And a read takes it from there. */
  lemma ReadFromDisk(v: Volume, f: Handle, buf: seq<byte>, len: nat, cs: seq<nat>, i: nat, k: nat)
    requires Valid(v) && f.position < 512 && len <= |buf| && k < len
    requires Chain(v.table, cs) && i < |cs| && f.cluster == cs[i] && Below(cs, |v.sectors| - 31)
    requires f.position + len <= 512 * (|cs| - i)
    ensures var (r, at) := (Rw(v, f, buf, 0, len, Read), 512 * i + f.position + k);
      var s := 33 + (cs[at / 512] - 2);
      0 <= s < |v.sectors| && |v.sectors[s]| == 512 && r.buf[k] == v.sectors[s][at % 512]
  {
    hide Rw, LeftAt, StaysInside;
    TailChain(v.table, cs, i);
    var r, at := Rw(v, f, buf, 0, len, Read), f.position + k;
    ReadEffect(v, f, buf, 0, len, cs[i..], r);
    assert at == SECTOR_SIZE * (at / SECTOR_SIZE) + at % SECTOR_SIZE;
    assert r.buf[k] == ByteOf(v, cs[i..], at / SECTOR_SIZE, at % SECTOR_SIZE);
    assert cs[i..][at / SECTOR_SIZE] == cs[(SECTOR_SIZE * i + at) / SECTOR_SIZE];
  }

  // ---------------------------------------------------------------- one write after another

  /** The handle stands at byte `offset` of the file. */
  ghost predicate StandsAt(g: Handle, cs: seq<nat>, offset: nat) {
    exists j: nat :: j < |cs| && g.cluster == cs[j] && SECTOR_SIZE * j + g.position == offset
  }

  lemma LeftStandsAt(f: Handle, g: Handle, all: seq<nat>, i: nat, len: nat)
    requires i < |all| && f.position < SECTOR_SIZE && LeftAt(f, g, all[i..], len)
    ensures var end := SECTOR_SIZE * i + f.position + len;
      StandsAt(g, all, end) <==> end < SECTOR_SIZE * |all|
  {
    var end := f.position + len;
    if end < SECTOR_SIZE * (|all| - i) {
      var j := i + end / SECTOR_SIZE;
      assert g.cluster == all[j] && SECTOR_SIZE * j + g.position == SECTOR_SIZE * i + end;
    }
  }

  /** After a write the handle stands behind the last byte exactly when that byte is not the last one of
      the chain: filling the last cluster leaves the position where it was. */
  lemma HandleMovesOn(v: Volume, f: Handle, buf: seq<byte>, len: nat, cs: seq<nat>, i: nat) returns (all: seq<nat>)
    requires Valid(v) && f.position < SECTOR_SIZE && len <= |buf|
    requires Chain(v.table, cs) && i < |cs| && f.cluster == cs[i] && Below(cs, |v.sectors| - 31)
    requires FreeBelow(v.table, |v.sectors| - 31) >= Extra(f.position, len, |cs| - i)
    ensures var (r, end) := (Rw(v, f, buf, 0, len, Write), SECTOR_SIZE * i + f.position + len);
      && cs <= all && Chain(r.vol.table, all)
      && (StandsAt(r.file, all, end) <==> end < SECTOR_SIZE * |all|)
  {
    hide Rw, ChainAfter, Stored, Untouched, LeftAt, StaysInside;
    all := WriteFile(v, f, buf, len, cs, i);
    LeftStandsAt(f, Rw(v, f, buf, 0, len, Write).file, all, i, len);
  }

  /** The same for a read. */
  lemma HandleMovesOnReading(v: Volume, f: Handle, buf: seq<byte>, len: nat, cs: seq<nat>, i: nat)
    requires Valid(v) && f.position < SECTOR_SIZE && len <= |buf|
    requires Chain(v.table, cs) && i < |cs| && f.cluster == cs[i] && Below(cs, |v.sectors| - 31)
    requires f.position + len <= SECTOR_SIZE * (|cs| - i)
    ensures var (r, end) := (Rw(v, f, buf, 0, len, Read), SECTOR_SIZE * i + f.position + len);
      StandsAt(r.file, cs, end) <==> end < SECTOR_SIZE * |cs|
  {
    hide Rw, Fetched, LeftAt, StaysInside;
    TailChain(v.table, cs, i);
    var r := Rw(v, f, buf, 0, len, Read);
    ReadEffect(v, f, buf, 0, len, cs[i..], r);
    LeftStandsAt(f, r.file, cs, i, len);
  }

  /** What two stores of adjacent bytes leave is what one store of both leaves. */
  lemma StoredTwice(v: Volume, w: Volume, x: Volume, all: seq<nat>, all': seq<nat>, pos: nat,
                    a: seq<byte>, b: seq<byte>)
    requires Valid(v) && Valid(w) && Valid(x) && |w.sectors| == |v.sectors| == |x.sectors|
    requires all <= all' && Below(all', |v.sectors| - 31) && Chain(x.table, all')
    requires Stored(v, w, all, pos, a, 0, |a|) && Untouched(v, w, all)
    requires Stored(w, x, all', pos + |a|, b, 0, |b|) && pos + |a| <= SECTOR_SIZE * |all|
    ensures Stored(v, x, all', pos, a + b, 0, |a| + |b|)
  {
    forall j: nat, p: nat | j < |all'| && p < SECTOR_SIZE
      ensures ByteOf(x, all', j, p) ==
        if pos <= SECTOR_SIZE * j + p < pos + (|a| + |b|) then (a + b)[SECTOR_SIZE * j + p - pos]
        else ByteOf(v, all', j, p)
    {
      if j < |all| {
        assert ByteOf(w, all, j, p) == ByteOf(w, all', j, p) && ByteOf(v, all, j, p) == ByteOf(v, all', j, p);
      } else {
        forall k | 0 <= k < |all| ensures all[k] != all'[j] {
          assert all[k] == all'[k];
          Acyclic(x.table, all', k, j);
        }
        assert w.sectors[all'[j] + 31] == v.sectors[all'[j] + 31];
      }
    }
  }

  /** Where the handle stands when it has moved on. */
  lemma LeftInside(f: Handle, g: Handle, all: seq<nat>, i: nat, len: nat) returns (k: nat)
    requires i < |all| && LeftAt(f, g, all[i..], len) && f.position + len < SECTOR_SIZE * (|all| - i)
    ensures i <= k < |all| && g.cluster == all[k] && g.position < SECTOR_SIZE
    ensures SECTOR_SIZE * (k - i) + g.position == f.position + len
  {
    k := i + (f.position + len) / SECTOR_SIZE;
    assert all[i..][k - i] == all[k];
  }

  /** The clusters needed, counted from the `i`-th of `n`. */
  lemma ExtraFrom(pos: nat, len: nat, i: nat, n: nat)
    requires i <= n
    ensures Extra(SECTOR_SIZE * i + pos, len, n) == Extra(pos, len, n - i)
  {
  }

  /** Two writes through one handle store the bytes of both one behind the other, if the first does not
      fill the last cluster of the chain that it ends up with. */
  lemma TwoWrites(v: Volume, f: Handle, a: seq<byte>, b: seq<byte>, cs: seq<nat>, i: nat) returns (all': seq<nat>)
    requires Valid(v) && f.position < SECTOR_SIZE && Chain(v.table, cs) && i < |cs| && f.cluster == cs[i]
    requires Below(cs, |v.sectors| - 31)
    requires FreeBelow(v.table, |v.sectors| - 31) >= Extra(f.position, |a|, |cs| - i)
    requires f.position + |a| < SECTOR_SIZE * (|cs| - i + Extra(f.position, |a|, |cs| - i))
    requires var r := Rw(v, f, a, 0, |a|, Write);
      FreeBelow(r.vol.table, |v.sectors| - 31)
        >= Extra(f.position + |a|, |b|, |cs| - i + Extra(f.position, |a|, |cs| - i))
    ensures var r := Rw(v, f, a, 0, |a|, Write);
      && r.file.cluster < 0x1000 && r.file.position < SECTOR_SIZE
      && var x := Rw(r.vol, r.file, b, 0, |b|, Write).vol;
      && |x.sectors| == |v.sectors| && Chain(x.table, all') && cs <= all' && Below(all', |v.sectors| - 31)
      && Stored(v, x, all', SECTOR_SIZE * i + f.position, a + b, 0, |a| + |b|)
  {
    hide Rw, Stored, ChainAfter, StaysInside, Untouched, FreeBelow, LeftAt, Extra;
    var r := Rw(v, f, a, 0, |a|, Write);
    var all := WriteFile(v, f, a, |a|, cs, i);
    ChainAfterLength(v.table, cs, SECTOR_SIZE * i + f.position, |a|);
    ExtraFrom(f.position, |a|, i, |cs|);
    var k := LeftInside(f, r.file, all, i, |a|);
    ExtraFrom(r.file.position, |b|, k - i, |all| - i);
    all' := WriteFile(r.vol, r.file, b, |b|, all, k);
    UntouchedMore(v, r.vol, all, i);
    StoredTwice(v, r.vol, Rw(r.vol, r.file, b, 0, |b|, Write).vol, all, all', SECTOR_SIZE * i + f.position, a, b);
  }

  /** Where in the first buffer the second write begins when the first one has filled the last of the
      `n` clusters it goes through. */
  function Overwritten(len: nat, n: nat): nat
    requires n != 1 ==> len >= SECTOR_SIZE
  {
    if n == 1 then 0 else len - SECTOR_SIZE
  }

  /** If the first write does fill it, the second begins inside what has just been written: where the
      first one began, or at the start of the last cluster. */
  lemma SecondWriteOverwrites(v: Volume, f: Handle, a: seq<byte>, b: seq<byte>, cs: seq<nat>, i: nat)
    returns (all': seq<nat>)
    requires Valid(v) && f.position < SECTOR_SIZE && Chain(v.table, cs) && i < |cs| && f.cluster == cs[i]
    requires Below(cs, |v.sectors| - 31) && a != []
    requires FreeBelow(v.table, |v.sectors| - 31) >= Extra(f.position, |a|, |cs| - i)
    requires f.position + |a| == SECTOR_SIZE * (|cs| - i + Extra(f.position, |a|, |cs| - i))
    requires var r := Rw(v, f, a, 0, |a|, Write);
      FreeBelow(r.vol.table, |v.sectors| - 31)
        >= Extra(f.position + |a|, |b|, |cs| - i + Extra(f.position, |a|, |cs| - i))
    ensures var (r, n) := (Rw(v, f, a, 0, |a|, Write), |cs| - i + Extra(f.position, |a|, |cs| - i));
      && r.file.cluster < 0x1000 && r.file.position < SECTOR_SIZE && Overwritten(|a|, n) < |a|
      && var x := Rw(r.vol, r.file, b, 0, |b|, Write).vol;
      && |x.sectors| == |v.sectors| && Chain(x.table, all') && cs <= all' && Below(all', |v.sectors| - 31)
      && i + n <= |all'|
      && Stored(r.vol, x, all', SECTOR_SIZE * i + f.position + Overwritten(|a|, n), b, 0, |b|)
  {
    hide Rw, Stored, ChainAfter, StaysInside, Untouched, FreeBelow;
    var r := Rw(v, f, a, 0, |a|, Write);
    var all := WriteFile(v, f, a, |a|, cs, i);
    ChainAfterLength(v.table, cs, SECTOR_SIZE * i + f.position, |a|);
    ExtraFrom(f.position, |a|, i, |cs|);
    var n := |all| - i;
    assert all[i..][n - 1] == all[|all| - 1];
    assert r.file.cluster == all[|all| - 1] && r.file.position == if n == 1 then f.position else 0;
    hide LeftAt, Extra;
    NeedsNoMore(r.file.position, f.position + |a|, |b|, n);
    all' := WriteFile(r.vol, r.file, b, |b|, all, |all| - 1);
  }

  /** A write from inside the last of `n` clusters needs no more than one from behind it. */
  lemma NeedsNoMore(pos: nat, end: nat, len: nat, n: nat)
    requires n > 0 && pos < SECTOR_SIZE && end == SECTOR_SIZE * n
    ensures Extra(pos, len, 1) <= Extra(end, len, n)
  {
  }

  /** A byte of `b` where both buffers in a row would have another one. */
  lemma NotBoth(v: Volume, w: Volume, x: Volume, all: seq<nat>, pos: nat, a: seq<byte>, b: seq<byte>, lost: nat)
    requires Valid(v) && Valid(w) && Valid(x) && |w.sectors| == |v.sectors| == |x.sectors|
    requires Below(all, |v.sectors| - 31) && pos + lost < SECTOR_SIZE * |all|
    requires lost < |a| && b != [] && b[0] != a[lost]
    requires Stored(w, x, all, pos + lost, b, 0, |b|)
    ensures !Stored(v, x, all, pos, a + b, 0, |a| + |b|)
  {
    var j, p := (pos + lost) / SECTOR_SIZE, (pos + lost) % SECTOR_SIZE;
    assert ByteOf(x, all, j, p) == b[0];
    assert (a + b)[lost] == a[lost];
  }

  /** Two writes through one handle store both buffers one behind the other if and only if the first does
      not fill the last cluster of the chain that it ends up with; `b` is any buffer that does not by
      chance begin with the byte that it replaces. */
  lemma TwoWritesIff(v: Volume, f: Handle, a: seq<byte>, b: seq<byte>, cs: seq<nat>, i: nat) returns (all': seq<nat>)
    requires Valid(v) && f.position < SECTOR_SIZE && Chain(v.table, cs) && i < |cs| && f.cluster == cs[i]
    requires Below(cs, |v.sectors| - 31) && a != [] && b != []
    requires FreeBelow(v.table, |v.sectors| - 31) >= Extra(f.position, |a|, |cs| - i)
    requires var n := |cs| - i + Extra(f.position, |a|, |cs| - i);
      f.position + |a| == SECTOR_SIZE * n ==> b[0] != a[Overwritten(|a|, n)]
    requires var r := Rw(v, f, a, 0, |a|, Write);
      FreeBelow(r.vol.table, |v.sectors| - 31)
        >= Extra(f.position + |a|, |b|, |cs| - i + Extra(f.position, |a|, |cs| - i))
    ensures var (r, n) := (Rw(v, f, a, 0, |a|, Write), |cs| - i + Extra(f.position, |a|, |cs| - i));
      && r.file.cluster < 0x1000 && r.file.position < SECTOR_SIZE
      && var x := Rw(r.vol, r.file, b, 0, |b|, Write).vol;
      && |x.sectors| == |v.sectors| && Chain(x.table, all') && cs <= all' && Below(all', |v.sectors| - 31)
      && (Stored(v, x, all', SECTOR_SIZE * i + f.position, a + b, 0, |a| + |b|)
          <==> f.position + |a| < SECTOR_SIZE * n)
  {
    hide Rw, Stored, ChainAfter, StaysInside, Untouched, FreeBelow;
    var n := |cs| - i + Extra(f.position, |a|, |cs| - i);
    if f.position + |a| < SECTOR_SIZE * n {
      all' := TwoWrites(v, f, a, b, cs, i);
    } else {
      all' := SecondWriteOverwrites(v, f, a, b, cs, i);
      var r := Rw(v, f, a, 0, |a|, Write);
      var x := Rw(r.vol, r.file, b, 0, |b|, Write).vol;
      NotBoth(v, r.vol, x, all', SECTOR_SIZE * i + f.position, a, b, Overwritten(|a|, n));
    }
  }

  lemma UntouchedMore(v: Volume, w: Volume, all: seq<nat>, i: nat)
    requires i < |all| && Untouched(v, w, all[i..])
    ensures Untouched(v, w, all)
  {
    assert forall c :: c in all[i..] ==> c in all;
  }

  lemma ChainAfterLength(t: seq<nat>, cs: seq<nat>, pos: nat, len: nat)
    requires |t| == 0x1000 && |cs| > 0 && cs[|cs| - 1] < 0x1000
    ensures |ChainAfter(t, cs, pos, len).1| == |cs| + Extra(pos, len, |cs|)
  {
  }

  // ---------------------------------------------------------------- when a write succeeds

  /** Without a free cluster on the disk the allocation gives one that is not there. */
  lemma NoneBelow(t: seq<nat>, limit: nat)
    requires |t| == 0x1000 && limit <= CLUSTERS && FreeBelow(t, limit) == 0
    ensures LowestFree(t) >= limit
  {
    var n := LowestFree(t);
    if n < limit {
      UnusedPositive(seq(limit, k requires 0 <= k < limit => k < 2 || t[k] != 0), n);
    }
  }

  /** With fewer free clusters than it needs, a write runs off the disk. */
  lemma {:induction false} WriteWithoutRoom(v: Volume, f: Handle, buf: seq<byte>, at: nat, len: nat,
                                            cs: seq<nat>, r: Result)
    requires Valid(v) && f.position < SECTOR_SIZE && at + len <= |buf|
    requires Chain(v.table, cs) && f.cluster == cs[0] && Below(cs, |v.sectors| - 31)
    requires FreeBelow(v.table, |v.sectors| - 31) < Extra(f.position, len, |cs|)
    requires r == Rw(v, f, buf, at, len, Write)
    ensures r.outcome == OffDisk
    decreases len
  {
    hide Rw, FreeBelow, EndInside, NextCluster, Unused, Used, Copied;
    var room := SECTOR_SIZE - f.position;
    var (v2, rest) := AfterFirst(v, f, buf, at, cs);
    RwGoesOn(v, f, buf, at, len, cs);
    var g := f.(cluster := rest[0], position := 0);
    if |cs| > 1 {
      TailChain(v.table, cs, 1);
      WriteWithoutRoom(v2, g, buf, at + room, len - room, rest, r);
    } else if FreeBelow(v.table, |v.sectors| - 31) == 0 {
      NoneBelow(v.table, |v.sectors| - 31);
      OffDiskAtOnce(v2, g, buf, at + room, len - room, Write);
    } else {
      AppendBelow(v.table, cs, |v.sectors| - 31);
      SingletonChain(v2.table, rest[0]);
      ExtraAfterFirst(f.position, len);
      WriteWithoutRoom(v2, g, buf, at + room, len - room, rest, r);
    }
  }

  /** On a full disk a write beyond the chain goes on with cluster 0xFF0, which no disk has, and leaves
      the table as it is. */
  lemma {:induction false} WriteOnFullDisk(v: Volume, f: Handle, buf: seq<byte>, at: nat, len: nat, cs: seq<nat>)
    requires Valid(v) && f.position < SECTOR_SIZE && at + len <= |buf|
    requires Chain(v.table, cs) && f.cluster == cs[0] && Below(cs, |v.sectors| - 31)
    requires LowestFree(v.table) == CLUSTERS && f.position + len > SECTOR_SIZE * |cs|
    ensures var r := Rw(v, f, buf, at, len, Write);
      r.outcome == OffDisk && r.file.cluster == CLUSTERS == 0xFF0 && r.vol.table == v.table
    decreases |cs|
  {
    hide Rw;
    var room := SECTOR_SIZE - f.position;
    var (v2, rest) := AfterFirst(v, f, buf, at, cs);
    var g := f.(cluster := rest[0], position := 0);
    RwGoesOn(v, f, buf, at, len, cs);
    if |cs| > 1 {
      TailChain(v.table, cs, 1);
      WriteOnFullDisk(v2, g, buf, at + room, len - room, rest);
    } else {
      FullTable(v.table, f.cluster);
      OffDiskAtOnce(v2, g, buf, at + room, len - room, Write);
    }
  }

  lemma OffDiskAtOnce(v: Volume, f: Handle, buf: seq<byte>, at: nat, len: nat, dir: Direction)
    requires Valid(v) && f.cluster < 0x1000 && f.position < SECTOR_SIZE && at + len <= |buf|
    requires len > 0 && f.cluster + 31 >= |v.sectors|
    ensures Rw(v, f, buf, at, len, dir) == Result(v, f, buf, OffDisk)
  {
  }

  /** A write that stays inside the file's length is done exactly when there are as many free clusters
      on the disk as it needs beyond the chain. */
  lemma WriteIsDoneIffRoom(v: Volume, f: Handle, buf: seq<byte>, len: nat, cs: seq<nat>)
    requires Valid(v) && f.position < SECTOR_SIZE && len <= |buf| && StaysInside(f, len)
    requires Chain(v.table, cs) && f.cluster == cs[0] && Below(cs, |v.sectors| - 31)
    ensures Rw(v, f, buf, 0, len, Write).outcome == Done
       <==> FreeBelow(v.table, |v.sectors| - 31) >= Extra(f.position, len, |cs|)
  {
    hide Rw;
    var r := Rw(v, f, buf, 0, len, Write);
    if FreeBelow(v.table, |v.sectors| - 31) >= Extra(f.position, len, |cs|) {
      var all := WriteEffect(v, f, buf, 0, len, cs, r);
    } else {
      WriteWithoutRoom(v, f, buf, 0, len, cs, r);
    }
  }
}
