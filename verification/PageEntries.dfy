/** Page-table and page-directory entries: 32-bit words that hold a frame and twelve flags. */
module PageEntries {

  const PRESENT: bv12 := 1
  const WRITABLE: bv12 := 2
  const USER: bv12 := 4

  /** An entry, split into its 20-bit frame number and its low twelve flag bits. */
  datatype Entry = Entry(frame: nat, flags: bv12) {
    predicate Present() { flags & PRESENT != 0 }
    function AddAttrib(f: bv12): Entry { this.(flags := flags | f) }
    function DelAttrib(f: bv12): Entry { this.(flags := flags & !f) }
    function SetFrame(f: nat): Entry { this.(frame := f) }
  }

  const ZERO: Entry := Entry(0, 0)

  lemma PresentFlags(e: Entry, f: bv12)
    ensures e.AddAttrib(PRESENT).Present() && !e.DelAttrib(PRESENT).Present()
    ensures e.Present() ==> e.AddAttrib(f).Present()
    ensures !ZERO.Present()
  {
    FlagFacts(e.flags, f);
  }

  lemma FlagFacts(s: bv12, f: bv12)
    ensures (s | PRESENT) & PRESENT != 0 && (s & !PRESENT) & PRESENT == 0
    ensures s & PRESENT != 0 ==> (s | f) & PRESENT != 0
  {
  }

  // ---------------------------------------------------------------- the packed words

  /** I86_PTE_FRAME and the bits below it. */
  function Pfn(e: bv32): bv32 { e & 0xffff_f000 }

  function Flags(e: bv32): bv32 { e & 0xfff }

  function AddAttrib(e: bv32, attrib: bv32): bv32 { e | attrib }

  function DelAttrib(e: bv32, attrib: bv32): bv32 { e & !attrib }

  function SetFrame(e: bv32, physical: bv32): bv32 {
    DelAttrib(e, 0xffff_f000) | (physical & 0xffff_f000)
  }

  /** On the packed words the operations act on the frame and on the flags apart, as on `Entry`:
      attributes among the low twelve bits leave the frame alone, and a new frame the flags. */
  lemma AttribLeavesFrame(e: bv32, attrib: bv32)
    requires Pfn(attrib) == 0
    ensures Pfn(AddAttrib(e, attrib)) == Pfn(e) == Pfn(DelAttrib(e, attrib))
  {
  }

  lemma AddAttribToFlags(e: bv32, attrib: bv32)
    requires Pfn(attrib) == 0
    ensures Flags(AddAttrib(e, attrib)) == Flags(e) | attrib
  {
  }

  lemma DelAttribFromFlags(e: bv32, attrib: bv32)
    requires Pfn(attrib) == 0
    ensures Flags(DelAttrib(e, attrib)) == Flags(e) & !attrib
  {
  }

  lemma SetFrameLeavesFlags(e: bv32, physical: bv32)
    ensures Pfn(SetFrame(e, physical)) == Pfn(physical) && Flags(SetFrame(e, physical)) == Flags(e)
  {
  }

  // ---------------------------------------------------------------- packed and unpacked

  function FrameBits(e: bv32): bv32 { e >> 12 }

  function FlagBits(e: bv32): bv12 { (e & 0xfff) as bv12 }

  /** The entry that a word stands for. */
  function Unpack(e: bv32): Entry { Entry(FrameBits(e) as nat, FlagBits(e)) }

  lemma AddBits(e: bv32, attrib: bv32)
    requires Pfn(attrib) == 0
    ensures FrameBits(AddAttrib(e, attrib)) == FrameBits(e)
    ensures FlagBits(AddAttrib(e, attrib)) == FlagBits(e) | FlagBits(attrib)
  {
  }

  lemma DelBits(e: bv32, attrib: bv32)
    requires Pfn(attrib) == 0
    ensures FrameBits(DelAttrib(e, attrib)) == FrameBits(e)
    ensures FlagBits(DelAttrib(e, attrib)) == FlagBits(e) & !FlagBits(attrib)
  {
  }

  lemma FrameSetBits(e: bv32, physical: bv32)
    ensures FrameBits(SetFrame(e, physical)) == FrameBits(physical)
    ensures FlagBits(SetFrame(e, physical)) == FlagBits(e)
  {
  }

  /** Each operation on the words is the operation on the entries that they stand for. */
  lemma UnpackAdd(e: bv32, attrib: bv32)
    requires Pfn(attrib) == 0
    ensures Unpack(AddAttrib(e, attrib)) == Unpack(e).AddAttrib(FlagBits(attrib))
  {
    hide AddAttrib, FrameBits, FlagBits, Pfn;
    AddBits(e, attrib);
  }

  lemma UnpackDel(e: bv32, attrib: bv32)
    requires Pfn(attrib) == 0
    ensures Unpack(DelAttrib(e, attrib)) == Unpack(e).DelAttrib(FlagBits(attrib))
  {
    hide DelAttrib, FrameBits, FlagBits, Pfn;
    DelBits(e, attrib);
  }

  lemma UnpackSetFrame(e: bv32, physical: bv32)
    ensures Unpack(SetFrame(e, physical)) == Unpack(e).SetFrame(FrameBits(physical) as nat)
  {
    hide SetFrame, FrameBits, FlagBits;
    FrameSetBits(e, physical);
  }

  lemma UnpackPresent(e: bv32)
    ensures Unpack(e).Present() <==> e & 1 != 0
  {
  }
}
