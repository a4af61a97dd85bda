/** Files in the root directory: opening one, recording its length, and writing then reading it back. */
module FatDirectory {
  import opened FatEntries
  import opened FatChains
  import opened FatFiles

  const ROOT: nat := 19             // rootOffset of a floppy with two tables of nine sectors
  const ROOT_SECTORS: nat := 14
  const SLOTS: nat := 16            // directory slots in a sector
  const SLOT_SIZE: nat := 32
  const NAME_SIZE: nat := 11
  const TWO_TO_32: nat := 0x1_0000_0000

  // ---------------------------------------------------------------- one directory sector

  function NameAt(s: Sector, i: nat): Sector
    requires |s| == SECTOR_SIZE && i < SLOTS
  {
    s[SLOT_SIZE * i..SLOT_SIZE * i + NAME_SIZE]
  }

  /** The first slot from `i` on with this name, or 16. */
  function FindSlot(s: Sector, name: Sector, i: nat := 0): (r: nat)
    requires |s| == SECTOR_SIZE && i <= SLOTS
    ensures i <= r <= SLOTS && (r < SLOTS ==> NameAt(s, r) == name)
    ensures forall k :: i <= k < r ==> NameAt(s, k) != name
    decreases SLOTS - i
  {
    if i == SLOTS || NameAt(s, i) == name then i else FindSlot(s, name, i + 1)
  }

  /** Fields of a slot: the attributes, the first cluster and the file size. */
  function AttribAt(s: Sector, i: nat): byte
    requires |s| == SECTOR_SIZE && i < SLOTS
  {
    s[SLOT_SIZE * i + 11]
  }

  function ClusterAt(s: Sector, i: nat): nat
    requires |s| == SECTOR_SIZE && i < SLOTS
  {
    s[SLOT_SIZE * i + 26] as int + 0x100 * (s[SLOT_SIZE * i + 27] as int)
  }

  function LengthAt(s: Sector, i: nat): nat
    requires |s| == SECTOR_SIZE && i < SLOTS
  {
    var o := SLOT_SIZE * i + 28;
    s[o] as int + 0x100 * (s[o + 1] as int) + 0x1_0000 * (s[o + 2] as int) + 0x100_0000 * (s[o + 3] as int)
  }

  function LengthByte(len: nat, k: nat): byte {
    (if k == 0 then len else if k == 1 then len / 0x100 else if k == 2 then len / 0x1_0000 else len / 0x100_0000) % 256
  }

  /** Byte `k` of the sector when the file size of slot `i` is replaced. */
  function ByteWithLength(s: Sector, i: nat, len: nat, k: nat): byte
    requires k < |s|
  {
    var o := k - (SLOT_SIZE * i + 28);
    if 0 <= o < 4 then LengthByte(len, o) else s[k]
  }

  function SetLength(s: Sector, i: nat, len: nat): (r: Sector)
    requires |s| == SECTOR_SIZE && i < SLOTS
    ensures |r| == SECTOR_SIZE && forall k :: 0 <= k < SECTOR_SIZE ==> r[k] == ByteWithLength(s, i, len, k)
  {
    seq(SECTOR_SIZE, k requires 0 <= k < SECTOR_SIZE => ByteWithLength(s, i, len, k))
  }

  lemma LengthBytes(len: nat)
    requires len < TWO_TO_32
    ensures LengthByte(len, 0) as int + 0x100 * (LengthByte(len, 1) as int) + 0x1_0000 * (LengthByte(len, 2) as int)
          + 0x100_0000 * (LengthByte(len, 3) as int) == len
  {
    var a := len / 0x100;
    var b := len / 0x1_0000;
    assert b == a / 0x100 && len / 0x100_0000 == b / 0x100;
  }

  /** The recorded size reads back, and no name, attribute or cluster changes. */
  lemma SetLengthEffect(s: Sector, i: nat, len: nat, j: nat)
    requires |s| == SECTOR_SIZE && i < SLOTS && j < SLOTS && len < TWO_TO_32
    ensures var r := SetLength(s, i, len);
      && NameAt(r, j) == NameAt(s, j) && ClusterAt(r, j) == ClusterAt(s, j) && AttribAt(r, j) == AttribAt(s, j)
      && LengthAt(r, j) == if j == i then len else LengthAt(s, j)
  {
    LengthBytes(len);
  }

  lemma {:induction false} SameSlot(s: Sector, t: Sector, name: Sector, i: nat)
    requires |s| == SECTOR_SIZE && |t| == SECTOR_SIZE && i <= SLOTS
    requires forall j: nat | j < SLOTS :: NameAt(t, j) == NameAt(s, j)
    ensures FindSlot(t, name, i) == FindSlot(s, name, i)
    decreases SLOTS - i
  {
    if i < SLOTS {
      SameSlot(s, t, name, i + 1);
    }
  }

  // ---------------------------------------------------------------- opening and recording

  /** The `n`-th root sector has a slot with the name. */
  predicate HasName(v: Volume, name: Sector, n: nat)
    requires Valid(v) && n < ROOT_SECTORS
  {
    FindSlot(v.sectors[ROOT + n], name) < SLOTS
  }

  /** The first root sector from the `n`-th on that has the name, or 14. */
  function FindSector(v: Volume, name: Sector, n: nat := 0): (r: nat)
    requires Valid(v) && n <= ROOT_SECTORS
    ensures n <= r <= ROOT_SECTORS && (r < ROOT_SECTORS ==> HasName(v, name, r))
    decreases ROOT_SECTORS - n
  {
    if n == ROOT_SECTORS || HasName(v, name, n) then n else FindSector(v, name, n + 1)
  }

  lemma {:induction false} NoEarlierSector(v: Volume, name: Sector, n: nat)
    requires Valid(v) && n <= ROOT_SECTORS
    ensures forall m :: n <= m < FindSector(v, name, n) ==> !HasName(v, name, m)
    decreases ROOT_SECTORS - n
  {
    hide HasName;
    if n < ROOT_SECTORS && !HasName(v, name, n) {
      NoEarlierSector(v, name, n + 1);
    }
  }

  /** `parent` is the sector of the file's directory entry. */
  datatype Opened = NotFound | Found(f: Handle, parent: nat)

  /** fat12fsys_root_open, given the 8.3 name. */
  function RootOpen(v: Volume, name: Sector): (r: Opened)
    requires Valid(v)
    ensures r.Found? ==> ROOT <= r.parent < ROOT + ROOT_SECTORS && r.f.position == 0 && r.f.absPosition == 0
  {
    var n := FindSector(v, name);
    if n == ROOT_SECTORS then NotFound
    else
      var s := v.sectors[ROOT + n];
      var i := FindSlot(s, name);
      Found(Handle(ClusterAt(s, i), 0, LengthAt(s, i), 0, false, AttribAt(s, i) == 0x10), ROOT + n)
  }

  /** The root directory is in sectors 19 to 32, with sixteen slots of 32 bytes in each, and the name is in
      the first eleven bytes of a slot. */
  predicate Named(v: Volume, name: Sector, m: nat, k: nat)
    requires Valid(v) && m < 14 && k < 16
  {
    v.sectors[19 + m][32 * k..32 * k + 11] == name
  }

  predicate EarlierSlot(m: nat, k: nat, n: nat, i: nat) { m < n || (m == n && k < i) }

  lemma FirstNamedSlot(v: Volume, name: Sector, n: nat, i: nat)
    requires Valid(v) && n < 14 && i < 16 && Named(v, name, n, i)
    requires forall m: nat, k: nat | m < 14 && k < 16 && EarlierSlot(m, k, n, i) :: !Named(v, name, m, k)
    ensures FindSector(v, name) == n && FindSlot(v.sectors[19 + n], name) == i
  {
    var t := v.sectors[ROOT + n];
    forall k: nat | k < i ensures NameAt(t, k) != name { assert !Named(v, name, n, k); }
    assert NameAt(t, i) == name;
    forall m: nat | m < n ensures !HasName(v, name, m) {
      var k := FindSlot(v.sectors[ROOT + m], name);
      assert k < 16 ==> !Named(v, name, m, k);
    }
    assert HasName(v, name, n);
    NoEarlierSector(v, name, 0);
  }

  /** Opened is the first slot with the name: the attributes are its byte 11, the first cluster its bytes 26
      and 27 and the size its last four, low byte first. */
  lemma OpenFindsSlot(v: Volume, name: Sector, n: nat, i: nat)
    requires Valid(v) && n < 14 && i < 16 && Named(v, name, n, i)
    requires forall m: nat, k: nat | m < 14 && k < 16 && EarlierSlot(m, k, n, i) :: !Named(v, name, m, k)
    ensures var (s, o) := (v.sectors[19 + n], 32 * i);
      var size := s[o + 28] as int + 0x100 * (s[o + 29] as int) + 0x1_0000 * (s[o + 30] as int)
                + 0x100_0000 * (s[o + 31] as int);
      RootOpen(v, name) ==
        Found(Handle(s[o + 26] as int + 0x100 * (s[o + 27] as int), 0, size, 0, false, s[o + 11] == 0x10), 19 + n)
  {
    hide FindSlot, FindSector, Named;
    FirstNamedSlot(v, name, n, i);
    assert |v.sectors[ROOT + n]| == SECTOR_SIZE;
  }

  /** fat12fsys_update_flen */
  function UpdateLength(v: Volume, parent: nat, name: Sector, len: nat): (w: Volume)
    requires Valid(v) && FAT_SECTORS < parent < |v.sectors|
    ensures Valid(w) && w.table == v.table && |w.sectors| == |v.sectors|
    ensures forall s | 0 <= s < |v.sectors| && s != parent :: w.sectors[s] == v.sectors[s]
  {
    var i := FindSlot(v.sectors[parent], name);
    if i == SLOTS then v else v.(sectors := v.sectors[parent := SetLength(v.sectors[parent], i, len)])
  }

  /** The part of fat12fsys_write before the transfer: position and length are kept up to date. */
  function Recorded(v: Volume, f: Handle, parent: nat, name: Sector, len: nat): (r: (Volume, Handle))
    requires Valid(v) && FAT_SECTORS < parent < |v.sectors|
    ensures Valid(r.0) && r.0.table == v.table && |r.0.sectors| == |v.sectors|
    ensures r.1.cluster == f.cluster && r.1.position == f.position && r.1.isDir == f.isDir
    ensures forall s | 0 <= s < |v.sectors| && s != parent :: r.0.sectors[s] == v.sectors[s]
  {
    if f.isDir then (v, f)
    else
      var abs := (f.absPosition + len) % TWO_TO_32;
      if abs > f.length then (UpdateLength(v, parent, name, abs), f.(absPosition := abs, length := abs))
      else (v, f.(absPosition := abs))
  }

  /** fat12fsys_write */
  function WriteCall(v: Volume, f: Handle, parent: nat, name: Sector, buf: seq<byte>, len: nat): (r: Result)
    requires Valid(v) && len <= |buf| && FAT_SECTORS < parent < |v.sectors|
    requires f.cluster < 0x1000 && f.position < SECTOR_SIZE
    ensures Valid(r.vol)
  {
    var (w, g) := Recorded(v, f, parent, name, len);
    Rw(w, g, buf, 0, len, Write)
  }

  /** A write to a directory records nothing. */
  lemma DirectoryWrite(v: Volume, f: Handle, parent: nat, name: Sector, buf: seq<byte>, len: nat)
    requires Valid(v) && len <= |buf| && FAT_SECTORS < parent < |v.sectors|
    requires f.cluster < 0x1000 && f.position < SECTOR_SIZE && f.isDir
    ensures WriteCall(v, f, parent, name, buf, len) == Rw(v, f, buf, 0, len, Write)
  {
    hide Rw;
  }

  // ---------------------------------------------------------------- the round trip

  /** Recording the length, the same slot is found again, with that length. */
  lemma RecordedIsFound(v: Volume, name: Sector, len: nat)
    requires Valid(v) && RootOpen(v, name).Found? && len < TWO_TO_32
    ensures var o := RootOpen(v, name);
      RootOpen(UpdateLength(v, o.parent, name, len), name) == Found(o.f.(length := len), o.parent)
  {
    hide FindSlot, SetLength, NameAt, ClusterAt, LengthAt, AttribAt;
    var o := RootOpen(v, name);
    var w := UpdateLength(v, o.parent, name, len);
    var s, t := v.sectors[o.parent], w.sectors[o.parent];
    var i := FindSlot(s, name);
    forall j: nat | j < SLOTS ensures NameAt(t, j) == NameAt(s, j) { SetLengthEffect(s, i, len, j); }
    SameSlot(s, t, name, 0);
    SetLengthEffect(s, i, len, i);
    SameSector(v, w, name, 0);
  }

  /** The name is found in the same slot of sector `s`, if at all. */
  ghost predicate FoundAlike(v: Volume, w: Volume, name: Sector, s: nat)
    requires Valid(v) && Valid(w) && ROOT <= s < ROOT + ROOT_SECTORS
  {
    FindSlot(w.sectors[s], name) == FindSlot(v.sectors[s], name)
  }

  lemma {:induction false} SameSector(v: Volume, w: Volume, name: Sector, n: nat)
    requires Valid(v) && Valid(w) && n <= ROOT_SECTORS
    requires forall s: nat | ROOT <= s < ROOT + ROOT_SECTORS :: FoundAlike(v, w, name, s)
    ensures FindSector(w, name, n) == FindSector(v, name, n)
    decreases ROOT_SECTORS - n
  {
    hide FindSlot;
    if n < ROOT_SECTORS {
      assert FoundAlike(v, w, name, ROOT + n);
      SameSector(v, w, name, n + 1);
    }
  }

  /** A write through a chain never touches the boot sector, the table's sectors other than by entries,
      or the root directory. */
  lemma RootUntouched(v: Volume, w: Volume, all: seq<nat>, t: seq<nat>)
    requires Valid(v) && Chain(t, all) && Untouched(v, w, all)
    ensures forall s | ROOT <= s < ROOT + ROOT_SECTORS :: w.sectors[s] == v.sectors[s]
    ensures w.sectors[0] == v.sectors[0]
  {
    assert forall c :: c in all ==> c >= 2;
  }

  lemma SameRoot(v: Volume, w: Volume, name: Sector)
    requires Valid(v) && Valid(w)
    requires forall s | ROOT <= s < ROOT + ROOT_SECTORS :: w.sectors[s] == v.sectors[s]
    ensures RootOpen(w, name) == RootOpen(v, name)
  {
    SameSector(v, w, name, 0);
  }

  /** What has been written is what is read. */
  lemma ReadsWritten(v: Volume, w: Volume, all: seq<nat>, buf: seq<byte>, out: seq<byte>, got: seq<byte>)
    requires Valid(v) && Valid(w) && |w.sectors| == |v.sectors| && Below(all, |v.sectors| - 31)
    requires |buf| <= |out| && |buf| <= SECTOR_SIZE * |all|
    requires Stored(v, w, all, 0, buf, 0, |buf|) && Fetched(w, out, got, all, 0, 0, |buf|)
    ensures |got| == |out| && got[..|buf|] == buf && got[|buf|..] == out[|buf|..]
  {
    forall k | 0 <= k < |buf| ensures got[k] == buf[k] {
      var j, p := k / SECTOR_SIZE, k % SECTOR_SIZE;
      assert k == SECTOR_SIZE * j + p && j < |all|;
      assert got[0 + SECTOR_SIZE * j + p - 0] == ByteOf(w, all, j, p);
    }
  }

  /** With the position inside a sector not beyond the absolute one, what is recorded covers the write. */
  lemma RecordedStaysInside(v: Volume, f: Handle, parent: nat, name: Sector, len: nat)
    requires Valid(v) && FAT_SECTORS < parent < |v.sectors| && !f.isDir
    requires f.position <= f.absPosition && f.absPosition + len < TWO_TO_32
    ensures var g := Recorded(v, f, parent, name, len).1;
      StaysInside(g, len) && g.absPosition == f.absPosition + len
  {
  }

  /** With enough free clusters a write is done exactly when it stays inside the length that is recorded,
      and else runs on beyond its buffer. */
  lemma WriteCallDoneIff(v: Volume, f: Handle, parent: nat, name: Sector, buf: seq<byte>, cs: seq<nat>, i: nat)
    requires Valid(v) && FAT_SECTORS < parent < |v.sectors| && f.position < SECTOR_SIZE
    requires Chain(v.table, cs) && i < |cs| && f.cluster == cs[i] && Below(cs, |v.sectors| - 31)
    requires FreeBelow(v.table, |v.sectors| - 31) >= Extra(f.position, |buf|, |cs| - i)
    ensures f.cluster < 0x1000
    ensures WriteCall(v, f, parent, name, buf, |buf|).outcome
         == if StaysInside(Recorded(v, f, parent, name, |buf|).1, |buf|) then Done else Overrun
  {
    hide Rw, Recorded, Stored, Untouched, ChainAfter, StaysInside, LeftAt;
    var (w, g) := Recorded(v, f, parent, name, |buf|);
    var all := WriteFile(w, g, buf, |buf|, cs, i);
  }

  /** So a write through such a handle never runs on beyond its buffer: with enough free clusters it is
      done, and it leaves such a handle for the next one. */
  lemma WriteCallIsDone(v: Volume, f: Handle, parent: nat, name: Sector, buf: seq<byte>, cs: seq<nat>, i: nat)
    requires Valid(v) && FAT_SECTORS < parent < |v.sectors| && !f.isDir
    requires f.position <= f.absPosition && f.absPosition + |buf| < TWO_TO_32 && f.position < SECTOR_SIZE
    requires Chain(v.table, cs) && i < |cs| && f.cluster == cs[i] && Below(cs, |v.sectors| - 31)
    requires FreeBelow(v.table, |v.sectors| - 31) >= Extra(f.position, |buf|, |cs| - i)
    ensures f.cluster < 0x1000
    ensures var r := WriteCall(v, f, parent, name, buf, |buf|);
      r.outcome == Done && !r.file.isDir && r.file.position < SECTOR_SIZE && r.file.position <= r.file.absPosition
  {
    hide Rw, Recorded, Stored, Untouched, ChainAfter, StaysInside;
    RecordedStaysInside(v, f, parent, name, |buf|);
    var (w, g) := Recorded(v, f, parent, name, |buf|);
    var all := WriteFile(w, g, buf, |buf|, cs, i);
  }

  /** The bytes up to `end` that lie in its sector are no more than `length`. */
  predicate ShortEnough(end: nat, length: nat) { end % SECTOR_SIZE <= length }

  /** A read does not move the absolute position, so that a write after a read can record too short a
      length: from the start of a file of length `f.length`, read `len` bytes and write `buf`, and the write
      is done exactly when it ends on a sector boundary or not beyond the longer of that length and its own. */
  lemma ReadThenWriteIff(v: Volume, f: Handle, parent: nat, name: Sector, out: seq<byte>, len: nat, buf: seq<byte>,
                         cs: seq<nat>, got: Result)
    requires Valid(v) && FAT_SECTORS < parent < |v.sectors| && !f.isDir && f.position == 0 && f.absPosition == 0
    requires Chain(v.table, cs) && f.cluster == cs[0] < 0x1000 && Below(cs, |v.sectors| - 31)
    requires len <= |out| && len < SECTOR_SIZE * |cs| && 0 < |buf| < TWO_TO_32
    requires FreeBelow(v.table, |v.sectors| - 31) >= Extra(len, |buf|, |cs|)
    requires got == Rw(v, f, out, 0, len, Read)
    ensures got.outcome == Done <==> len % SECTOR_SIZE <= f.length || len / SECTOR_SIZE == |cs| - 1
    ensures got.vol == v && got.file.cluster < 0x1000 && got.file.position < SECTOR_SIZE
    ensures WriteCall(v, got.file, parent, name, buf, |buf|).outcome
         == if ShortEnough(len + |buf|, f.length) || ShortEnough(len + |buf|, |buf|) then Done else Overrun
  {
    hide Rw, FreeBelow, WriteCall, Recorded, StaysInside, Extra, ShortEnough, FatFiles.Valid;
    var i := ReadFirst(v, f, out, len, |buf|, cs, got);
    WriteCallDoneIff(v, got.file, parent, name, buf, cs, i);
    RecordedAfterRead(v, got.file, parent, name, len, |buf|);
  }

  /** The read of that. */
  lemma ReadFirst(v: Volume, f: Handle, out: seq<byte>, len: nat, more: nat, cs: seq<nat>, got: Result) returns (i: nat)
    requires Valid(v) && !f.isDir && f.position == 0 && Chain(v.table, cs) && f.cluster == cs[0] < 0x1000
    requires Below(cs, |v.sectors| - 31) && len <= |out| && len < SECTOR_SIZE * |cs|
    requires got == Rw(v, f, out, 0, len, Read)
    ensures got.outcome == Done <==> len % SECTOR_SIZE <= f.length || len / SECTOR_SIZE == |cs| - 1
    ensures got.vol == v && i < |cs| && got.file.cluster == cs[i] < 0x1000
    ensures got.file.position == len % SECTOR_SIZE < SECTOR_SIZE
    ensures got.file.absPosition == f.absPosition && got.file.length == f.length && !got.file.isDir
    ensures Extra(len, more, |cs|) == Extra(got.file.position, more, |cs| - i)
  {
    hide Rw, Fetched, Extra, ReadEnds, LeftAt, ValidTable;
    ReadEffect(v, f, out, 0, len, cs, got);
    i := AfterRead(f, got.file, len, more, cs);
  }

  /** What the read has left: when it ends, where it stands, and what the write needs. */
  lemma AfterRead(f: Handle, g: Handle, len: nat, more: nat, cs: seq<nat>) returns (i: nat)
    requires f.position == 0 && !f.isDir && len < SECTOR_SIZE * |cs| && LeftAt(f, g, cs, len)
    ensures ReadEnds(f, cs, len) <==> len % SECTOR_SIZE <= f.length || len / SECTOR_SIZE == |cs| - 1
    ensures i < |cs| && g.cluster == cs[i] && g.position == len % SECTOR_SIZE < SECTOR_SIZE
    ensures g.absPosition == f.absPosition && g.length == f.length && !g.isDir
    ensures Extra(len, more, |cs|) == Extra(g.position, more, |cs| - i)
  {
    i := len / SECTOR_SIZE;
  }

  lemma RecordedAfterRead(v: Volume, g: Handle, parent: nat, name: Sector, len: nat, more: nat)
    requires Valid(v) && FAT_SECTORS < parent < |v.sectors| && !g.isDir && g.absPosition == 0 && 0 < more < TWO_TO_32
    requires g.position == len % SECTOR_SIZE
    ensures StaysInside(Recorded(v, g, parent, name, more).1, more)
       <==> ShortEnough(len + more, g.length) || ShortEnough(len + more, more)
  {
    hide UpdateLength;
    assert (len % SECTOR_SIZE + more) % SECTOR_SIZE == (len + more) % SECTOR_SIZE;
  }

  /** One such input: a file of one cluster and recorded length 0, 100 bytes read and 10 written. */
  lemma ReadThenWriteRunsOn(v: Volume, f: Handle, parent: nat, name: Sector, out: seq<byte>, buf: seq<byte>, c: nat,
                            got: Result)
    requires Valid(v) && FAT_SECTORS < parent < |v.sectors| && Chain(v.table, [c]) && c < |v.sectors| - 31
    requires f == Handle(c, 0, 0, 0, false, false) && c < 0x1000 && |out| == 100 && |buf| == 10
    requires got == Rw(v, f, out, 0, 100, Read)
    ensures got.outcome == Done && got.vol == v && got.file.cluster < 0x1000 && got.file.position == 100
    ensures WriteCall(v, got.file, parent, name, buf, 10).outcome == Overrun
  {
    hide Rw, WriteCall, FreeBelow;
    ReadThenWriteIff(v, f, parent, name, out, 100, buf, [c], got);
    var i := ReadFirst(v, f, out, 100, 10, [c], got);
  }

  /** Before the transfer the length covers what is written, on the disk and in the handle. */
  lemma RecordedCovers(v: Volume, name: Sector, len: nat)
    requires Valid(v) && RootOpen(v, name).Found? && len < TWO_TO_32 && !RootOpen(v, name).f.isDir
    ensures var o := RootOpen(v, name);
      var (w, g) := Recorded(v, o.f, o.parent, name, len);
      && StaysInside(g, len)
      && RootOpen(w, name) == Found(o.f.(length := if len > o.f.length then len else o.f.length), o.parent)
  {
    hide RootOpen, UpdateLength;
    RecordedIsFound(v, name, len);
  }

  /** The write of the round trip: it is done, and the file is found again with its chain. */
  lemma WriteToOpened(v: Volume, name: Sector, buf: seq<byte>, cs: seq<nat>) returns (all: seq<nat>, w: Volume)
    requires Valid(v) && RootOpen(v, name).Found? && |buf| < TWO_TO_32
    requires Chain(v.table, cs) && Below(cs, |v.sectors| - 31) && cs[0] == RootOpen(v, name).f.cluster
    requires !RootOpen(v, name).f.isDir
    requires FreeBelow(v.table, |v.sectors| - 31) >= Extra(0, |buf|, |cs|)
    ensures Valid(w) && |w.sectors| == |v.sectors|
    ensures var o := RootOpen(v, name);
      var r := WriteCall(v, o.f, o.parent, name, buf, |buf|);
      && r.outcome == Done && |r.vol.sectors| == |v.sectors|
      && Chain(r.vol.table, all) && Below(all, |v.sectors| - 31) && cs <= all && |buf| <= SECTOR_SIZE * |all|
      && Stored(w, r.vol, all, 0, buf, 0, |buf|)
      && RootOpen(r.vol, name) == Found(o.f.(length := if |buf| > o.f.length then |buf| else o.f.length), o.parent)
  {
    hide Rw, Stored, RootOpen, Recorded, StaysInside, LeftAt;
    var o := RootOpen(v, name);
    var (u, g) := Recorded(v, o.f, o.parent, name, |buf|);
    w := u;
    RecordedCovers(v, name, |buf|);
    all := WriteFile(w, g, buf, |buf|, cs, 0);
    assert all[0..] == all;
    var r := Rw(w, g, buf, 0, |buf|, Write);
    RootUntouched(w, r.vol, all, r.vol.table);
    SameRoot(w, r.vol, name);
  }

  lemma InsideLength(f: Handle, len: nat)
    requires f.position == 0 && !f.isDir && len <= f.length
    ensures StaysInside(f, len)
  {
  }

  /** A read from the start of a chain that a write has just stored. */
  lemma ReadsBack(w: Volume, v: Volume, f: Handle, all: seq<nat>, buf: seq<byte>, out: seq<byte>)
    requires Valid(v) && Valid(w) && |w.sectors| == |v.sectors| && Below(all, |v.sectors| - 31)
    requires Chain(v.table, all) && f.cluster == all[0] && f.position == 0 && !f.isDir && f.length >= |buf|
    requires |buf| <= |out| && |buf| <= SECTOR_SIZE * |all| && Stored(w, v, all, 0, buf, 0, |buf|)
    ensures var got := Rw(v, f, out, 0, |buf|, Read);
      got.outcome == Done && got.vol == v && got.buf[..|buf|] == buf && got.buf[|buf|..] == out[|buf|..]
  {
    hide Rw, Stored, Fetched, LeftAt, StaysInside;
    InsideLength(f, |buf|);
    var got := Rw(v, f, out, 0, |buf|, Read);
    ReadEffect(v, f, out, 0, |buf|, all, got);
    ReadsWritten(w, v, all, buf, out, got.buf);
  }

  /** One write of any bytes to a file of the root directory, then opening it again and reading as many
      bytes, gives the same bytes, if there are as many free clusters as the write needs. */
  lemma WriteReopenRead(v: Volume, name: Sector, buf: seq<byte>, out: seq<byte>, cs: seq<nat>)
    requires Valid(v) && RootOpen(v, name).Found? && |buf| < TWO_TO_32 && |out| >= |buf|
    requires Chain(v.table, cs) && Below(cs, |v.sectors| - 31) && cs[0] == RootOpen(v, name).f.cluster
    requires !RootOpen(v, name).f.isDir
    requires FreeBelow(v.table, |v.sectors| - 31) >= Extra(0, |buf|, |cs|)
    ensures var o := RootOpen(v, name);
      var r := WriteCall(v, o.f, o.parent, name, buf, |buf|);
      var again := RootOpen(r.vol, name);
      && r.outcome == Done && again.Found? && again.f.cluster == o.f.cluster
      && var got := Rw(r.vol, again.f, out, 0, |buf|, Read);
         got.outcome == Done && got.vol == r.vol && got.buf[..|buf|] == buf && got.buf[|buf|..] == out[|buf|..]
  {
    hide Rw, RootOpen, WriteCall, Stored;
    var o := RootOpen(v, name);
    var r := WriteCall(v, o.f, o.parent, name, buf, |buf|);
    var all, w := WriteToOpened(v, name, buf, cs);
    var again := RootOpen(r.vol, name);
    ReadsBack(w, r.vol, again.f, all, buf, out);
  }
}
