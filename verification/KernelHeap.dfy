/** The allocators as the kernel keeps them: bitmap words, a used counter and memory, in place. */
module KernelHeap {
  import opened Words
  import opened Bitmaps
  import opened BlockHeap

  /** A bitmap with its counter: the part that the frame allocator and both heaps share. */
  class BlockMap {
    const words: array<bv32>
    const maxBlocks: nat
    var usedBlocks: int

    ghost predicate Valid()
      reads this
    {
      words.Length == maxBlocks / 32
    }

    ghost function Map(): seq<bool>
      reads this, words
    {
      Bits(words[..])
    }

    constructor (max: nat)
      ensures Valid() && fresh(words) && maxBlocks == max && usedBlocks == 0
      ensures forall k :: 0 <= k < |Map()| ==> !Map()[k]
    {
      words := new bv32[max / 32](_ => 0);
      maxBlocks := max;
      usedBlocks := 0;
      new;
      forall k | 0 <= k < |Map()| ensures !Map()[k] { BitOfZero(k % 32); }
    }

    /** The bitmap is cleared word by word. */
    method ClearMap()
      requires Valid()
      modifies words
      ensures Valid() && |Map()| == |old(Map())| && forall k :: 0 <= k < |Map()| ==> !Map()[k]
    {
      var i := 0;
      while i < words.Length
        invariant i <= words.Length && forall j :: 0 <= j < i ==> words[j] == 0
      {
        words[i] := 0;
        i := i + 1;
      }
      forall k | 0 <= k < |Map()| ensures !Map()[k] { BitOfZero(k % 32); }
    }

    /** alloc_block: the first free block, or -1. */
    method AllocBlock() returns (frame: int)
      requires Valid()
      modifies words, this`usedBlocks
      ensures Valid()
      ensures frame == if maxBlocks - old(usedBlocks) <= 0 then -1 else FirstRun(old(Map()), 1)
      ensures frame == -1 ==> Map() == old(Map()) && usedBlocks == old(usedBlocks)
      ensures frame != -1 ==> FreeRun(old(Map()), frame, 1) && Map() == old(Map())[frame := true]
      ensures frame != -1 ==> usedBlocks == old(usedBlocks) + 1
    {
      if maxBlocks - usedBlocks <= 0 {
        return -1;
      }
      frame := FirstFree(words);
      if frame == -1 {
        return -1;
      }
      SetBit(words, frame);
      usedBlocks := usedBlocks + 1;
    }

    /** free_block */
    method FreeBlock(frame: nat)
      requires Valid() && frame < 32 * words.Length
      modifies words, this`usedBlocks
      ensures Valid() && Map() == old(Map())[frame := false] && usedBlocks == old(usedBlocks) - 1
    {
      UnsetBit(words, frame);
      usedBlocks := usedBlocks - 1;
    }

    /** The search of alloc_blocks: the first run of `seqLen` free blocks, or -1. */
    method FindBlocks(seqLen: nat) returns (frame: int)
      requires Valid() && seqLen >= 1
      ensures frame == if maxBlocks - usedBlocks <= 0 then -1 else FirstRun(Map(), seqLen)
    {
      if maxBlocks - usedBlocks <= 0 {
        return -1;
      }
      frame := FirstFreeRun(words, seqLen);
    }

    /** The second half of alloc_blocks: the blocks are marked and counted one by one. */
    method MarkBlocks(frame: nat, seqLen: nat)
      requires Valid() && frame + seqLen <= 32 * words.Length
      modifies words, this`usedBlocks
      ensures Valid()
      ensures Map() == SetRange(old(Map()), frame, seqLen, true)
      ensures usedBlocks == old(usedBlocks) + seqLen
    {
      ghost var b := Map();
      var n := 0;
      while n < seqLen
        invariant n <= seqLen && Valid()
        invariant Map() == SetRange(b, frame, n, true) && usedBlocks == old(usedBlocks) + n
      {
        SetBit(words, frame + n);
        RangeStep(b, frame, n + 1, true);
        usedBlocks := usedBlocks + 1;
        n := n + 1;
      }
    }

    /** alloc_blocks: the first run of `seqLen` free blocks, or -1. */
    method AllocBlocks(seqLen: nat) returns (frame: int)
      requires Valid() && seqLen >= 1
      modifies words, this`usedBlocks
      ensures Valid()
      ensures frame == if maxBlocks - old(usedBlocks) <= 0 then -1 else FirstRun(old(Map()), seqLen)
      ensures frame == -1 ==> Map() == old(Map()) && usedBlocks == old(usedBlocks)
      ensures frame != -1 ==> FreeRun(old(Map()), frame, seqLen)
      ensures frame != -1 ==> Map() == SetRange(old(Map()), frame, seqLen, true)
      ensures frame != -1 ==> usedBlocks == old(usedBlocks) + seqLen
    {
      frame := FindBlocks(seqLen);
      if frame != -1 {
        MarkBlocks(frame, seqLen);
      }
    }

    /** free_blocks */
    method FreeBlocks(frame: nat, seqLen: nat)
      requires Valid() && frame + seqLen <= 32 * words.Length
      modifies words, this`usedBlocks
      ensures Valid()
      ensures Map() == SetRange(old(Map()), frame, seqLen, false)
      ensures usedBlocks == old(usedBlocks) - seqLen
    {
      ghost var b := Map();
      var n := 0;
      while n < seqLen
        invariant n <= seqLen && Valid()
        invariant Map() == SetRange(b, frame, n, false) && usedBlocks == old(usedBlocks) - n
      {
        UnsetBit(words, frame + n);
        RangeStep(b, frame, n + 1, false);
        usedBlocks := usedBlocks - 1;
        n := n + 1;
      }
    }
  }

  const HEAP_BASE: nat := 0xC030_0000
  const HEAP_CEILING: nat := 0xC050_0000
  const HEAP_BLOCKS: nat := (HEAP_CEILING - HEAP_BASE) / HEAP_BLOCK_SIZE

  /** The kernel heap: kmalloc and kfree over the words from HEAP_BASE to HEAP_CEILING. */
  class KernelHeap {
    const blocks: BlockMap
    const memory: array<nat>
    ghost var live: seq<Block>

    ghost function State(): Heap
      reads this, blocks, blocks.words, memory
    {
      Heap(blocks.Map(), blocks.usedBlocks, memory[..], live)
    }

    ghost predicate Valid()
      reads this, blocks, blocks.words, memory
    {
      blocks.Valid() && blocks.maxBlocks == HEAP_BLOCKS && memory.Length == WORDS_PER_BLOCK * HEAP_BLOCKS
    }

    constructor ()
      ensures Valid() && Inv(State()) && live == [] && fresh(blocks) && fresh(blocks.words) && fresh(memory)
    {
      blocks := new BlockMap(HEAP_BLOCKS);
      memory := new nat[WORDS_PER_BLOCK * HEAP_BLOCKS](_ => 0);
      live := [];
      new;
      EmptyHeapInv(blocks.Map(), memory[..]);
    }

    /** The word at an address of the heap. */
    function WordAt(addr: nat): nat
      requires addr >= HEAP_BASE
    {
      (addr - HEAP_BASE) / 4
    }

    /** kmalloc: the address behind the header, or 0. */
    method KMalloc(size: nat) returns (addr: nat)
      requires Valid() && Inv(State()) && size <= MAX_REQUEST
      modifies this`live, blocks`usedBlocks, blocks.words, memory
      ensures Valid() && State() == Malloc(old(State()), BlocksFor(size)).0
      ensures var f := Malloc(old(State()), BlocksFor(size)).1;
              addr == if f == -1 then 0 else 0xC030_0000 + 8 * f + 4
      ensures addr != 0 ==> addr + size <= 0xC050_0000
    {
      ghost var h := State();
      var total := size + BLOCK_AMT_DESC_SIZE;
      if total % HEAP_BLOCK_SIZE != 0 {
        total := total + (HEAP_BLOCK_SIZE - total % HEAP_BLOCK_SIZE);
      }
      var blockAmt := total / HEAP_BLOCK_SIZE;
      ghost var g := Malloc(h, BlocksFor(size));
      assert blockAmt == BlocksFor(size);
      var frame := blocks.AllocBlocks(blockAmt);
      assert frame == g.1;
      if frame == -1 {
        return 0;
      }
      var physAddr := HEAP_BASE + HEAP_BLOCK_SIZE * frame;
      memory[WordAt(physAddr)] := blockAmt;
      live := live + [Block(frame, blockAmt)];
      assert State() == g.0;
      return physAddr + BLOCK_AMT_DESC_SIZE;
    }

    /** kfree of null or of the i-th live pointer. */
    method KFree(addr: nat, ghost i: nat)
      requires Valid() && Inv(State())
      requires addr != 0 ==> i < |live| && addr == HEAP_BASE + HEAP_BLOCK_SIZE * live[i].start + BLOCK_AMT_DESC_SIZE
      modifies this`live, blocks`usedBlocks, blocks.words
      ensures Valid() && State() == if addr == 0 then old(State()) else Free(old(State()), i)
    {
      if addr != 0 {
        ghost var h := State();
        LiveFits(h, i);
        var blockAmt := memory[WordAt(addr - BLOCK_AMT_DESC_SIZE)];
        blocks.FreeBlocks((addr - BLOCK_AMT_DESC_SIZE - HEAP_BASE) / HEAP_BLOCK_SIZE, blockAmt);
        live := Without(live, i);
      }
    }

    /** A write through a live pointer. */
    method Poke(addr: nat, v: nat)
      requires Valid() && Inv(State()) && addr >= HEAP_BASE && InPayload(State(), WordAt(addr))
      modifies memory
      ensures Valid() && WordAt(addr) < memory.Length
      ensures State() == old(State()).(mem := old(memory[..])[WordAt(addr) := v])
    {
      PayloadWriteKeepsInv(State(), WordAt(addr), v);
      memory[WordAt(addr)] := v;
    }
  }
}
