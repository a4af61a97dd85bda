/** The 12-bit entries of the file allocation table, packed across bytes and sectors. */
module FatEntries {

  const SECTOR_SIZE: nat := 512
  const FAT_SECTORS: nat := 13        // sectors 1 to 13 hold every entry that is looked at
  const CLUSTERS: nat := 0xFF0        // the scan for a free entry stops here
  const END: nat := 0xFF8             // entries from here on end a chain

  type byte = b: int | 0 <= b < 256
  type Sector = seq<byte>
  type Disk = seq<Sector>

  /** The disk has room for the table, and no sector beyond the last cluster number. */
  ghost predicate ValidDisk(d: Disk) {
    34 <= |d| <= CLUSTERS + 31 && forall s :: 0 <= s < |d| ==> |d[s]| == SECTOR_SIZE
  }

  // ---------------------------------------------------------------- bytes of the table

  /** Byte `k` of the table, which starts at sector 1. */
  function FatByte(d: Disk, k: nat): byte
    requires ValidDisk(d) && k < FAT_SECTORS * SECTOR_SIZE
  {
    d[1 + k / SECTOR_SIZE][k % SECTOR_SIZE]
  }

  function SetByte(d: Disk, k: nat, b: byte): (r: Disk)
    requires ValidDisk(d) && k < FAT_SECTORS * SECTOR_SIZE
    ensures ValidDisk(r) && |r| == |d|
  {
    var sector: Sector := d[1 + k / SECTOR_SIZE][k % SECTOR_SIZE := b];
    d[1 + k / SECTOR_SIZE := sector]
  }

  lemma ByteAfterSet(d: Disk, k: nat, b: byte, l: nat)
    requires ValidDisk(d) && k < FAT_SECTORS * SECTOR_SIZE && l < FAT_SECTORS * SECTOR_SIZE
    ensures FatByte(SetByte(d, k, b), l) == if l == k then b else FatByte(d, l)
  {
    assert l == k <==> l / SECTOR_SIZE == k / SECTOR_SIZE && l % SECTOR_SIZE == k % SECTOR_SIZE;
  }

  // ---------------------------------------------------------------- entries

  /** Entry `n` starts at one and a half times n. */
  function Offset(n: nat): nat { n + n / 2 }

  /** The 16-bit little-endian word that holds entry `n`. */
  function Word(d: Disk, n: nat): nat
    requires ValidDisk(d) && n < 0x1000
  {
    FatByte(d, Offset(n)) + 256 * FatByte(d, Offset(n) + 1)
  }

  /** An odd entry is the upper 12 bits of its word, an even one the lower 12. */
  function Decode(w: nat, n: nat): (v: nat)
    requires w < 0x1_0000
    ensures v < 0x1000
  {
    if n % 2 == 1 then w / 16 else w % 0x1000
  }

  /** The word with entry `n` replaced and the other four bits kept. */
  function Encode(w: nat, n: nat, v: nat): (r: nat)
    requires w < 0x1_0000 && v < 0x1000
    ensures r < 0x1_0000
  {
    if n % 2 == 1 then 16 * v + w % 16 else v + w / 0x1000 * 0x1000
  }

  function Entry(d: Disk, n: nat): (v: nat)
    requires ValidDisk(d) && n < 0x1000
    ensures v < 0x1000
  {
    Decode(Word(d, n), n)
  }

  function SetEntry(d: Disk, n: nat, v: nat): (r: Disk)
    requires ValidDisk(d) && n < 0x1000 && v < 0x1000
    ensures ValidDisk(r) && |r| == |d|
  {
    var w := Encode(Word(d, n), n, v);
    SetByte(SetByte(d, Offset(n), w % 256), Offset(n) + 1, w / 256)
  }

  /** The shifts and masks of the source and the arithmetic above are the same, bit for bit. */
  lemma SameAsShiftsAndMasks(w: bv16, v: bv16)
    requires v < 0x1000
    ensures w >> 4 == w / 16 && w & 0x0FFF == w % 0x1000
    ensures (v << 4) | (w & 0xF) == 16 * v + w % 16
    ensures v | (w & 0xF000) == v + w / 0x1000 * 0x1000
  {
  }

  // ---------------------------------------------------------------- the codec

  lemma DecodeBytes(b0: byte, b1: byte, n: nat)
    ensures Decode(b0 + 256 * b1, n) == if n % 2 == 1 then b0 / 16 + 16 * b1 else b0 + 256 * (b1 % 16)
  {
  }

  lemma EncodeDecodes(w: nat, n: nat, v: nat)
    requires w < 0x1_0000 && v < 0x1000
    ensures Decode(Encode(w, n, v), n) == v
  {
  }

  /** The four bits of the word that belong to the neighbour are kept. */
  lemma NeighbourBits(b0: byte, b1: byte, n: nat, v: nat)
    requires v < 0x1000
    ensures var w := Encode(b0 + 256 * b1, n, v);
            if n % 2 == 1 then (w % 256) % 16 == b0 % 16 else (w / 256) / 16 == b1 / 16
  {
    var w := Encode(b0 + 256 * b1, n, v);
    if n % 2 == 1 {
      assert (b0 + 256 * b1) % 16 == b0 % 16 && (w % 256) % 16 == w % 16;
    } else {
      assert (b0 + 256 * b1) / 0x1000 == b1 / 16 && (w / 256) / 16 == w / 0x1000;
    }
  }

  lemma TableByte(d: Disk, n: nat, v: nat, k: nat)
    requires ValidDisk(d) && n < 0x1000 && v < 0x1000 && k < FAT_SECTORS * SECTOR_SIZE
    ensures var w := Encode(Word(d, n), n, v);
      FatByte(SetEntry(d, n, v), k) ==
        if k == Offset(n) then w % 256 else if k == Offset(n) + 1 then w / 256 else FatByte(d, k)
  {
    var w := Encode(Word(d, n), n, v);
    ByteAfterSet(d, Offset(n), w % 256, k);
    ByteAfterSet(SetByte(d, Offset(n), w % 256), Offset(n) + 1, w / 256, k);
  }

  /** The written entry reads back, be it odd, even or split between two sectors. */
  lemma SetEntryReadsBack(d: Disk, n: nat, v: nat)
    requires ValidDisk(d) && n < 0x1000 && v < 0x1000
    ensures Entry(SetEntry(d, n, v), n) == v
  {
    TableByte(d, n, v, Offset(n));
    TableByte(d, n, v, Offset(n) + 1);
    EncodeDecodes(Word(d, n), n, v);
  }

  /** No other entry changes, though two entries share a byte. */
  lemma SetEntryKeepsOthers(d: Disk, n: nat, v: nat, m: nat)
    requires ValidDisk(d) && n < 0x1000 && v < 0x1000 && m < 0x1000 && m != n
    ensures Entry(SetEntry(d, n, v), m) == Entry(d, m)
  {
    hide FatByte, SetEntry, SetByte, Encode, ValidDisk;
    var e := SetEntry(d, n, v);
    TableByte(d, n, v, Offset(m));
    TableByte(d, n, v, Offset(m) + 1);
    NeighbourBits(FatByte(d, Offset(n)), FatByte(d, Offset(n) + 1), n, v);
    DecodeBytes(FatByte(d, Offset(m)), FatByte(d, Offset(m) + 1), m);
    DecodeBytes(FatByte(e, Offset(m)), FatByte(e, Offset(m) + 1), m);
  }

  // ---------------------------------------------------------------- where the bits lie

  /** Two entries share three bytes: the even one has the first byte and the low half of the second, the odd
      one the high half of the second and the third byte, from byte 512 of the disk on. */
  lemma EntryBytes(d: Disk, m: nat)
    requires ValidDisk(d) && m < 0x800
    ensures var (k0, k1, k2) := (3 * m, 3 * m + 1, 3 * m + 2);
      var b0: int, b1: int, b2: int :=
        d[1 + k0 / 512][k0 % 512], d[1 + k1 / 512][k1 % 512], d[1 + k2 / 512][k2 % 512];
      && Entry(d, 2 * m) == b0 + 256 * (b1 % 16)
      && Entry(d, 2 * m + 1) == b1 / 16 + 16 * b2
  {
    hide Decode, FatByte;
    var b0, b1, b2 := FatByte(d, 3 * m), FatByte(d, 3 * m + 1), FatByte(d, 3 * m + 2);
    assert Offset(2 * m) == 3 * m && Offset(2 * m + 1) == 3 * m + 1;
    DecodeBytes(b0, b1, 2 * m);
    DecodeBytes(b1, b2, 2 * m + 1);
    BytesOf(d, m);
  }

  lemma BytesOf(d: Disk, m: nat)
    requires ValidDisk(d) && m < 0x800
    ensures FatByte(d, 3 * m) == d[1 + (3 * m) / 512][(3 * m) % 512]
    ensures FatByte(d, 3 * m + 1) == d[1 + (3 * m + 1) / 512][(3 * m + 1) % 512]
    ensures FatByte(d, 3 * m + 2) == d[1 + (3 * m + 2) / 512][(3 * m + 2) % 512]
  {
  }

  /** A table is its bytes: only the three that two entries share are written for either of them. */
  lemma SetEntryBytes(d: Disk, m: nat, odd: bool, v: nat, k: nat)
    requires ValidDisk(d) && m < 0x800 && v < 0x1000 && k < 6656
    requires k < 3 * m || k > 3 * m + 2
    ensures SetEntry(d, if odd then 2 * m + 1 else 2 * m, v)[1 + k / 512][k % 512] == d[1 + k / 512][k % 512]
  {
    var n := if odd then 2 * m + 1 else 2 * m;
    TableByte(d, n, v, k);
  }

  // ---------------------------------------------------------------- the table

  /** The table of all entries. */
  ghost function Table(d: Disk): (t: seq<nat>)
    requires ValidDisk(d)
    ensures |t| == 0x1000 && forall n :: 0 <= n < 0x1000 ==> t[n] == Entry(d, n)
  {
    seq(0x1000, n requires 0 <= n < 0x1000 => Entry(d, n))
  }

  lemma TableAfterSet(d: Disk, n: nat, v: nat)
    requires ValidDisk(d) && n < 0x1000 && v < 0x1000
    ensures Table(SetEntry(d, n, v)) == Table(d)[n := v]
  {
    forall m: nat | m < 0x1000 ensures Entry(SetEntry(d, n, v), m) == if m == n then v else Entry(d, m) {
      if m == n {
        SetEntryReadsBack(d, n, v);
      } else {
        SetEntryKeepsOthers(d, n, v, m);
      }
    }
  }

  /** Only the sectors of the table are written. */
  lemma SetEntryKeepsSectors(d: Disk, n: nat, v: nat)
    requires ValidDisk(d) && n < 0x1000 && v < 0x1000
    ensures forall s :: 0 <= s < |d| && (s == 0 || s > FAT_SECTORS) ==> SetEntry(d, n, v)[s] == d[s]
  {
  }

  /** Writing a sector outside the table changes no entry. */
  lemma SectorWriteKeepsTable(d: Disk, s: nat, x: Sector)
    requires ValidDisk(d) && FAT_SECTORS < s < |d| && |x| == SECTOR_SIZE
    ensures ValidDisk(d[s := x]) && Table(d[s := x]) == Table(d)
  {
    forall n: nat | n < 0x1000 ensures Entry(d[s := x], n) == Entry(d, n) {
      assert FatByte(d[s := x], Offset(n)) == FatByte(d, Offset(n));
      assert FatByte(d[s := x], Offset(n) + 1) == FatByte(d, Offset(n) + 1);
    }
  }
}
