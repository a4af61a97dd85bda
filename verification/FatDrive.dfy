/** The file system driver in place: the disk's sectors, the two-sector buffer and open files. */
module FatDrive {
  import opened FatEntries
  import opened FatChains
  import opened FatFiles
  import opened FatDirectory
  import opened FatCreate

  /** The two sectors that hold entry `n`, and where its word starts in them. */
  function TableSector(n: nat): (s: nat)
    requires n < 0x1000
    ensures 1 <= s < FAT_SECTORS
  {
    1 + Offset(n) / SECTOR_SIZE
  }

  function EntryOffset(n: nat): nat { Offset(n) % SECTOR_SIZE }

  /** The word of entry `n` in the two sectors. */
  lemma WordInSectors(d: Disk, n: nat)
    requires ValidDisk(d) && n < 0x1000
    ensures var (both, o) := (d[TableSector(n)] + d[TableSector(n) + 1], EntryOffset(n));
      Word(d, n) == both[o] as int + 256 * (both[o + 1] as int)
  {
  }

  /** Two bytes replaced in two sectors that are then written back. */
  function WrittenBack(d: Disk, s: nat, o: nat, b0: byte, b1: byte): Disk
    requires ValidDisk(d) && s + 1 < |d| && o < SECTOR_SIZE
  {
    var both: Sector := (d[s] + d[s + 1])[o := b0][o + 1 := b1];
    d[s := both[..SECTOR_SIZE]][s + 1 := both[SECTOR_SIZE..]]
  }

  lemma WrittenBackIsSet(d: Disk, n: nat, b0: byte, b1: byte)
    requires ValidDisk(d) && n < 0x1000
    ensures WrittenBack(d, TableSector(n), EntryOffset(n), b0, b1)
         == SetByte(SetByte(d, Offset(n), b0), Offset(n) + 1, b1)
  {
    var s, o := TableSector(n), EntryOffset(n);
    var both: Sector := (d[s] + d[s + 1])[o := b0][o + 1 := b1];
    if o + 1 < SECTOR_SIZE {
      var one: Sector := d[s][o := b0][o + 1 := b1];
      assert both[..SECTOR_SIZE] == one && both[SECTOR_SIZE..] == d[s + 1];
    } else {
      var one: Sector := d[s][o := b0];
      var two: Sector := d[s + 1][0 := b1];
      assert both[..SECTOR_SIZE] == one && both[SECTOR_SIZE..] == two;
    }
  }

  /** The volume after an entry is set, and after a sector outside the table is written. */
  lemma VolumeAfterSet(d: Disk, n: nat, v: nat)
    requires ValidDisk(d) && n < 0x1000 && v < 0x1000
    ensures VolumeOf(SetEntry(d, n, v)) == VolumeOf(d).(table := VolumeOf(d).table[n := v])
  {
    TableAfterSet(d, n, v);
    SetEntryKeepsSectors(d, n, v);
  }

  lemma VolumeAfterWrite(d: Disk, s: nat, x: Sector)
    requires ValidDisk(d) && FAT_SECTORS < s < |d| && |x| == SECTOR_SIZE
    ensures ValidDisk(d[s := x]) && VolumeOf(d[s := x]) == VolumeOf(d).(sectors := VolumeOf(d).sectors[s := x])
  {
    SectorWriteKeepsTable(d, s, x);
  }

  class OpenFile {
    var currentCluster: nat
    var position: nat
    var fileLength: nat
    var absPosition: nat
    var eof: bool
    const isDir: bool
    const parent: nat             // the sector of the directory entry
    const name: Sector            // in 8.3 form

    constructor (h: Handle, parentSector: nat, dosName: Sector)
      ensures State() == h && parent == parentSector && name == dosName
    {
      currentCluster, position, fileLength, absPosition := h.cluster, h.position, h.length, h.absPosition;
      eof, isDir, parent, name := h.eof, h.isDir, parentSector, dosName;
    }

    ghost function State(): Handle
      reads this
    {
      Handle(currentCluster, position, fileLength, absPosition, eof, isDir)
    }
  }

  /** The first root sector that has the name, if any, and its slot. */
  ghost predicate FoundAt(v: Volume, name: Sector, sector: nat, i: nat) {
    && Valid(v) && sector == FindSector(v, name)
    && (sector < ROOT_SECTORS ==> i == FindSlot(v.sectors[ROOT + sector], name) < SLOTS)
  }

  ghost predicate NotBefore(v: Volume, name: Sector, n: nat) {
    Valid(v) && n <= ROOT_SECTORS && FindSector(v, name, n) == FindSector(v, name)
  }

  lemma SectorSearch(v: Volume, name: Sector, n: nat, i: nat)
    requires NotBefore(v, name, n) && (n < ROOT_SECTORS ==> i == FindSlot(v.sectors[ROOT + n], name))
    ensures if n == ROOT_SECTORS || i < SLOTS then FoundAt(v, name, n, i) else NotBefore(v, name, n + 1)
  {
    hide FindSlot, ValidTable;
    assert FindSector(v, name, n) == if n == ROOT_SECTORS || HasName(v, name, n) then n else FindSector(v, name, n + 1);
  }

  lemma RootSector(d: Disk, n: nat)
    requires ValidDisk(d) && n < ROOT_SECTORS
    ensures Valid(VolumeOf(d)) && ROOT + n < |d| && |d[ROOT + n]| == SECTOR_SIZE
    ensures VolumeOf(d).sectors[ROOT + n] == d[ROOT + n]
  {
  }

  /** The first root sector where the scan for a slot stops, if any, and the slot. */
  ghost predicate StopsAt(v: Volume, name: Sector, sector: nat, i: nat) {
    && Valid(v) && sector == StopSector(v, name)
    && (sector < ROOT_SECTORS ==> i == StopSlot(v.sectors[ROOT + sector], name) < SLOTS)
  }

  ghost predicate NoStopBefore(v: Volume, name: Sector, n: nat) {
    Valid(v) && n <= ROOT_SECTORS && StopSector(v, name, n) == StopSector(v, name)
  }

  lemma StopSearch(v: Volume, name: Sector, n: nat, i: nat)
    requires NoStopBefore(v, name, n) && (n < ROOT_SECTORS ==> i == StopSlot(v.sectors[ROOT + n], name))
    ensures if n == ROOT_SECTORS || i < SLOTS then StopsAt(v, name, n, i) else NoStopBefore(v, name, n + 1)
  {
    hide StopSlot, ValidTable;
    assert StopSector(v, name, n) == if n == ROOT_SECTORS || HasStop(v, name, n) then n else StopSector(v, name, n + 1);
  }

  lemma NotPrepared(v: Volume, cluster: nat)
    requires FatFiles.Valid(v) && cluster < 0x1000
    ensures Prepared(v, false, cluster) == v
  {
  }

  class FatDrive {
    const disk: array<Sector>
    const fat: array<byte>        // the two-sector buffer

    constructor (d: array<Sector>)
      requires ValidDisk(d[..])
      ensures Valid() && disk == d && fresh(fat)
    {
      disk := d;
      fat := new byte[2 * SECTOR_SIZE](_ => 0);
    }

    ghost predicate Valid()
      reads disk
    {
      fat.Length == 2 * SECTOR_SIZE && ValidDisk(disk[..])
    }

    ghost function Vol(): Volume
      requires Valid()
      reads disk
    {
      VolumeOf(disk[..])
    }

    /** The two sectors of entry `n` are read into the buffer. */
    method LoadTable(n: nat)
      requires Valid() && n < 0x1000
      modifies fat
      ensures fat[..] == disk[TableSector(n)] + disk[TableSector(n) + 1]
    {
      var fatSector := 1 + Offset(n) / SECTOR_SIZE;
      var sector := disk[fatSector];
      forall i | 0 <= i < SECTOR_SIZE { fat[i] := sector[i]; }
      var next := disk[fatSector + 1];
      forall i | 0 <= i < SECTOR_SIZE { fat[SECTOR_SIZE + i] := next[i]; }
    }

    /** The entry, read from the disk; its word is left in the buffer. */
    method ReadEntry(n: nat) returns (value: nat, word: nat)
      requires Valid() && n < 0x1000
      modifies fat
      ensures value == Entry(disk[..], n) && word == Word(disk[..], n)
      ensures fat[..] == disk[TableSector(n)] + disk[TableSector(n) + 1]
    {
      LoadTable(n);
      var entryOffset := Offset(n) % SECTOR_SIZE;
      word := fat[entryOffset] as int + 256 * (fat[entryOffset + 1] as int);
      WordInSectors(disk[..], n);
      value := if n % 2 == 1 then word / 16 else word % 0x1000;
    }

    /** A new value for entry `n`, whose sectors and word have just been read. */
    method WriteEntry(n: nat, word: nat, value: nat)
      requires Valid() && n < 0x1000 && value < 0x1000 && word == Word(disk[..], n)
      requires fat[..] == disk[TableSector(n)] + disk[TableSector(n) + 1]
      modifies fat, disk
      ensures Valid() && disk[..] == SetEntry(old(disk[..]), n, value)
      ensures Vol() == old(Vol()).(table := old(Vol()).table[n := value])
    {
      ghost var d := disk[..];
      var fatSector, entryOffset := 1 + Offset(n) / SECTOR_SIZE, Offset(n) % SECTOR_SIZE;
      var remnant := if n % 2 == 1 then word % 16 else word / 0x1000 * 0x1000;
      var w := if n % 2 == 1 then 16 * value + remnant else value + remnant;
      fat[entryOffset] := w % 256;
      fat[entryOffset + 1] := w / 256;
      disk[fatSector] := fat[..SECTOR_SIZE];
      disk[fatSector + 1] := fat[SECTOR_SIZE..];
      assert disk[..] == WrittenBack(d, fatSector, entryOffset, w % 256, w / 256);
      WrittenBackIsSet(d, n, w % 256, w / 256);
      VolumeAfterSet(d, n, value);
    }

    /** fat12fsys_occupy_free_cluster */
    method OccupyFreeCluster(chainCluster: nat) returns (clusterEntry: nat)
      requires Valid() && chainCluster < 0x1000
      modifies fat, disk
      ensures Valid() && (Vol(), clusterEntry) == Occupy(old(Vol()), chainCluster)
    {
      ghost var t := Vol().table;
      clusterEntry := 2;
      while clusterEntry < CLUSTERS
        invariant 2 <= clusterEntry <= CLUSTERS && Valid() && disk[..] == old(disk[..])
        invariant LowestFree(t, clusterEntry) == LowestFree(t)
      {
        var cluster, word := ReadEntry(clusterEntry);
        if cluster == 0 {
          WriteEntry(clusterEntry, word, END);
          break;
        }
        clusterEntry := clusterEntry + 1;
      }
      if chainCluster != 0 && clusterEntry != CLUSTERS {
        var _, word := ReadEntry(chainCluster);
        WriteEntry(chainCluster, word, clusterEntry);
      }
    }

    /** The transfer of fat12fsys_rw between one sector and the buffer. */
    method TransferSector(file: OpenFile, buffer: array<byte>, at: nat, k: nat, dir: Direction)
      requires Valid() && buffer != fat && file.position + k <= SECTOR_SIZE && at + k <= buffer.Length
      requires file.currentCluster + 31 < disk.Length
      modifies buffer, disk
      ensures Valid() && (Vol(), buffer[..]) == Transfer(old(Vol()), file.State(), old(buffer[..]), at, k, dir)
    {
      var physSector := 32 + file.currentCluster - 1;
      var sector := disk[physSector];
      match dir
      case Read =>
        ghost var before := buffer[..];
        forall i | 0 <= i < k { buffer[at + i] := sector[file.position + i]; }
        assert buffer[..] == Copied(before, at, sector, file.position, k);
      case Write =>
        ghost var d := disk[..];
        sector := Copied(sector, file.position, buffer[..], at, k);
        disk[physSector] := sector;
        VolumeAfterWrite(d, physSector, sector);
        assert disk[..] == d[physSector := sector];
    }

    /** The end of a transfer inside a sector. */
    method FinishInside(file: OpenFile, length: nat, dir: Direction, ghost buf: seq<byte>) returns (outcome: Outcome)
      requires Valid() && file.currentCluster < 0x1000
      modifies file, fat
      ensures Result(Vol(), file.State(), buf, outcome) == EndInside(Vol(), old(file.State()), buf, length, dir)
    {
      var nextCluster, _ := ReadEntry(file.currentCluster);
      file.position := file.position + length;
      if file.position <= file.fileLength && !file.isDir { return Done; }
      if nextCluster == 0 || (nextCluster >= END && dir == Direction.Read) {
        file.eof := true;
        return Done;
      }
      return Overrun;
    }

    /** The step to the next cluster, which a write at the end of the chain occupies. */
    method StepToNext(file: OpenFile, rest: nat, dir: Direction) returns (ended: bool)
      requires Valid() && file.currentCluster < 0x1000
      modifies file, fat, disk
      ensures Valid()
      ensures match NextCluster(old(Vol()), old(file.currentCluster), rest, dir)
              case Ends => ended && Vol() == old(Vol()) && file.State() == old(file.State()).(eof := true)
              case GoesOn(w, c) =>
                !ended && Vol() == w && file.State() == old(file.State()).(cluster := c, position := 0)
    {
      var nextCluster, _ := ReadEntry(file.currentCluster);
      if nextCluster == 0 || (nextCluster >= END && !(rest > 0 && dir == Direction.Write)) {
        file.eof := true;
        return true;
      }
      if rest > 0 && dir == Direction.Write && nextCluster >= END {
        nextCluster := OccupyFreeCluster(file.currentCluster);
      }
      file.currentCluster := nextCluster;
      file.position := 0;
      return false;
    }

    /** fat12fsys_rw */
    method Rw(file: OpenFile, buffer: array<byte>, at: nat, length: nat, dir: Direction) returns (outcome: Outcome)
      requires Valid() && buffer != fat && at + length <= buffer.Length
      requires file.currentCluster < 0x1000 && file.position < SECTOR_SIZE
      modifies file, buffer, fat, disk
      ensures Valid()
      ensures Result(Vol(), file.State(), buffer[..], outcome)
           == FatFiles.Rw(old(Vol()), old(file.State()), old(buffer[..]), at, length, dir)
      decreases length
    {
      hide VolumeOf, Transfer, EndInside, NextCluster;
      if length == 0 { return Done; }
      if 32 + file.currentCluster - 1 >= disk.Length { return OffDisk; }
      var room := SECTOR_SIZE - file.position;
      TransferSector(file, buffer, at, if length >= room then room else length, dir);
      if length < room {
        outcome := FinishInside(file, length, dir, buffer[..]);
        return;
      }
      var ended := StepToNext(file, length - room, dir);
      if ended { return Done; }
      outcome := Rw(file, buffer, at + room, length - room, dir);
    }

    /** fat12fsys_read */
    method Read(file: OpenFile, buffer: array<byte>, length: nat) returns (outcome: Outcome)
      requires Valid() && buffer != fat && length <= buffer.Length
      requires file.currentCluster < 0x1000 && file.position < SECTOR_SIZE
      modifies file, buffer, fat, disk
      ensures Valid()
      ensures Result(Vol(), file.State(), buffer[..], outcome)
           == FatFiles.Rw(old(Vol()), old(file.State()), old(buffer[..]), 0, length, Direction.Read)
    {
      outcome := Rw(file, buffer, 0, length, Direction.Read);
    }

    /** fat12fsys_update_flen */
    method UpdateFlen(parent: nat, name: Sector, newLen: nat)
      requires Valid() && FAT_SECTORS < parent < disk.Length
      modifies disk
      ensures Valid() && Vol() == UpdateLength(old(Vol()), parent, name, newLen)
    {
      ghost var d := disk[..];
      var buf := disk[parent];
      var i := 0;
      while i < SLOTS
        invariant i <= SLOTS && disk[..] == d && FindSlot(buf, name, i) == FindSlot(buf, name)
      {
        if NameAt(buf, i) == name {
          var changed := SetLength(buf, i, newLen);
          disk[parent] := changed;
          VolumeAfterWrite(d, parent, changed);
          assert disk[..] == d[parent := changed];
          return;
        }
        i := i + 1;
      }
    }

    /** fat12fsys_write */
    method Write(file: OpenFile, buffer: array<byte>, length: nat) returns (outcome: Outcome)
      requires Valid() && buffer != fat && length <= buffer.Length && FAT_SECTORS < file.parent < disk.Length
      requires file.currentCluster < 0x1000 && file.position < SECTOR_SIZE
      modifies file, buffer, fat, disk
      ensures Valid()
      ensures Result(Vol(), file.State(), buffer[..], outcome)
           == WriteCall(old(Vol()), old(file.State()), file.parent, file.name, old(buffer[..]), length)
    {
      hide VolumeOf, FatFiles.Rw, UpdateLength;
      ghost var v, f := Vol(), file.State();
      if !file.isDir {
        file.absPosition := (file.absPosition + length) % TWO_TO_32;
        if file.absPosition > file.fileLength {
          file.fileLength := file.absPosition;
          UpdateFlen(file.parent, file.name, file.absPosition);
        }
      }
      assert (Vol(), file.State()) == Recorded(v, f, file.parent, file.name, length);
      outcome := Rw(file, buffer, 0, length, Direction.Write);
    }

    /** The scan of one root sector: the slot with the name, or 16. */
    method ScanSector(buf: Sector, name: Sector) returns (i: nat)
      requires |buf| == SECTOR_SIZE
      ensures i == FindSlot(buf, name)
    {
      i := 0;
      while i < SLOTS
        invariant i <= SLOTS && FindSlot(buf, name, i) == FindSlot(buf, name)
      {
        if NameAt(buf, i) == name { return; }
        i := i + 1;
      }
    }

    /** The walk over the root directory: the first sector that has the name and its slot, or 14. */
    method FindInRoot(name: Sector, ghost v: Volume) returns (sector: nat, i: nat)
      requires Valid() && v == Vol()
      ensures FoundAt(v, name, sector, i)
    {
      hide VolumeOf, FindSlot, FindSector, FoundAt;
      sector, i := 0, SLOTS;
      while sector < ROOT_SECTORS
        invariant sector <= ROOT_SECTORS && NotBefore(v, name, sector)
      {
        RootSector(disk[..], sector);
        i := ScanSector(disk[ROOT + sector], name);
        SectorSearch(v, name, sector, i);
        if i < SLOTS { return; }
        sector := sector + 1;
      }
      SectorSearch(v, name, sector, i);
    }

    /** fat12fsys_root_open, given the 8.3 name: the file, or null. */
    method OpenInRoot(name: Sector) returns (file: OpenFile?)
      requires Valid()
      ensures match RootOpen(Vol(), name)
              case NotFound => file == null
              case Found(f, parent) =>
                 && file != null && fresh(file) && file.State() == f
                 && file.parent == parent && file.name == name
    {
      ghost var v := Vol();
      var sector, i := FindInRoot(name, v);
      if sector == ROOT_SECTORS {
        return null;
      }
      var buf := disk[ROOT + sector];
      assert buf == v.sectors[ROOT + sector] && i < SLOTS;
      file := new OpenFile(Handle(ClusterAt(buf, i), 0, LengthAt(buf, i), 0, false, AttribAt(buf, i) == 0x10),
                           ROOT + sector, name);
      assert Vol() == v;
    }

    /** The scan of one root sector for a free slot or the name: where it stops, or 16. */
    method ScanForSlot(buf: Sector, name: Sector) returns (i: nat)
      requires |buf| == SECTOR_SIZE
      ensures i == StopSlot(buf, name)
    {
      i := 0;
      while i < SLOTS
        invariant i <= SLOTS && StopSlot(buf, name, i) == StopSlot(buf, name)
      {
        if ClusterAt(buf, i) == 0 || NameAt(buf, i) == name { return; }
        i := i + 1;
      }
    }

    /** The walk over the root directory of fat12fsys_create. */
    method FindStop(name: Sector, ghost v: Volume) returns (sector: nat, i: nat)
      requires Valid() && v == Vol()
      ensures StopsAt(v, name, sector, i)
    {
      hide VolumeOf, StopSlot, StopSector, StopsAt;
      sector, i := 0, SLOTS;
      while sector < ROOT_SECTORS
        invariant sector <= ROOT_SECTORS && NoStopBefore(v, name, sector)
      {
        RootSector(disk[..], sector);
        i := ScanForSlot(disk[ROOT + sector], name);
        StopSearch(v, name, sector, i);
        if i < SLOTS { return; }
        sector := sector + 1;
      }
      StopSearch(v, name, sector, i);
    }

    /** The slot is filled in, and its sector written back. */
    method PlaceSlot(sector: nat, i: nat, name: Sector, isDir: bool, cluster: nat)
      requires Valid() && sector < ROOT_SECTORS && i < SLOTS && |name| == NAME_SIZE && cluster < 0x1000
      modifies disk
      ensures Valid() && Vol() == Placed(old(Vol()), sector, i, name, isDir, cluster)
    {
      hide WithSlot;
      ghost var d := disk[..];
      RootSector(d, sector);
      var changed := WithSlot(disk[ROOT + sector], i, name, isDir, cluster);
      disk[ROOT + sector] := changed;
      VolumeAfterWrite(d, ROOT + sector, changed);
      assert disk[..] == d[ROOT + sector := changed];
    }

    /** A new directory's cluster is written with zeros. */
    method ClearDirectory(sector: nat, name: Sector, cluster: nat)
      requires Valid() && sector < ROOT_SECTORS && cluster < 0x1000
      modifies fat, disk
      ensures Valid() && Vol() == Prepared(old(Vol()), true, cluster)
    {
      hide VolumeOf, FatFiles.Rw;
      RootSector(disk[..], sector);
      var file := new OpenFile(Handle(cluster, 0, 0, 0, false, true), ROOT + sector, name);
      var tmp := new byte[SECTOR_SIZE](_ => 0);
      assert tmp[..] == ZeroSector();
      var _ := Write(file, tmp, SECTOR_SIZE);
    }

    /** fat12fsys_create in the root directory, given the 8.3 name. */
    method CreateInRoot(name: Sector, isDir: bool) returns (created: Creation)
      requires Valid() && |name| == NAME_SIZE
      modifies fat, disk
      ensures Valid() && (Vol(), created) == FatCreate.CreateInRoot(old(Vol()), name, isDir)
    {
      hide VolumeOf, StopSlot, StopSector, Placed, Prepared;
      ghost var v := Vol();
      var sector, i := FindStop(name, v);
      if sector == ROOT_SECTORS { return DirectoryFull; }
      RootSector(disk[..], sector);
      if ClusterAt(disk[ROOT + sector], i) != 0 { return NameTaken; }
      var cluster := OccupyFreeCluster(0);
      if cluster == CLUSTERS { return TableFull; }
      PlaceSlot(sector, i, name, isDir, cluster);
      if isDir {
        ClearDirectory(sector, name, cluster);
      } else {
        NotPrepared(Vol(), cluster);
      }
      return Created(cluster, ROOT + sector);
    }
  }
}
