/** The block allocator behind kmalloc and malloc: a bitmap, a used counter and size headers. */
module BlockHeap {
  import opened Bitmaps

  const HEAP_BLOCK_SIZE: nat := 8
  const BLOCK_AMT_DESC_SIZE: nat := 4
  const WORDS_PER_BLOCK: nat := 2

  /** A live allocation: its first block and its length in blocks. */
  datatype Block = Block(start: nat, len: nat)

  /** `mem` are the heap's 32-bit words, two for each block; `live` is the history of what was
      allocated and not yet freed. */
  datatype Heap = Heap(bits: seq<bool>, used: int, mem: seq<nat>, live: seq<Block>)

  // ---------------------------------------------------------------- sizes

  const MAX_REQUEST: nat := 0x1_0000_0000 - BLOCK_AMT_DESC_SIZE - HEAP_BLOCK_SIZE

  /** The blocks for a request: header added, rounded up to whole blocks. */
  function BlocksFor(size: nat): (n: nat)
    ensures n >= 1 && 8 * (n - 1) < size + 4 <= 8 * n
  {
    var s := size + BLOCK_AMT_DESC_SIZE;
    var t := if s % HEAP_BLOCK_SIZE != 0 then s + (HEAP_BLOCK_SIZE - s % HEAP_BLOCK_SIZE) else s;
    t / HEAP_BLOCK_SIZE
  }

  // ---------------------------------------------------------------- operations

  /** The heap with blocks `f` to `f + n` marked and counted, and their number written in front. */
  function Taken(h: Heap, f: nat, n: nat): Heap
    requires |h.mem| == WORDS_PER_BLOCK * |h.bits| && n >= 1 && f + n <= |h.bits|
  {
    Heap(SetRange(h.bits, f, n, true), h.used + n, h.mem[WORDS_PER_BLOCK * f := n], h.live + [Block(f, n)])
  }

  /** Allocate `n` blocks and write their number in front; -1 stands for a null result. */
  ghost function Malloc(h: Heap, n: nat): (r: (Heap, int))
    requires |h.mem| == WORDS_PER_BLOCK * |h.bits| && n >= 1
  {
    var f := if |h.bits| - h.used <= 0 then -1 else FirstRun(h.bits, n);
    if f == -1 then (h, -1) else (Taken(h, f, n), f)
  }

  /** Free the i-th live allocation: its header says how many blocks. */
  ghost function Free(h: Heap, i: nat): Heap
    requires Inv(h) && i < |h.live|
  {
    LiveFits(h, i);
    var s := h.live[i].start;
    var n := h.mem[WORDS_PER_BLOCK * s];
    Heap(SetRange(h.bits, s, n, false), h.used - n, h.mem, Without(h.live, i))
  }

  /** A word belongs to the payload of a live allocation: behind its header, inside its blocks. */
  ghost predicate InPayload(h: Heap, w: nat) {
    exists i :: 0 <= i < |h.live| && PayloadOf(h.live[i], w)
  }

  predicate PayloadOf(b: Block, w: nat) {
    WORDS_PER_BLOCK * b.start < w < WORDS_PER_BLOCK * (b.start + b.len)
  }

  // ---------------------------------------------------------------- the invariant

  ghost predicate Covers(live: seq<Block>, k: int) {
    exists i :: 0 <= i < |live| && live[i].start <= k < live[i].start + live[i].len
  }

  predicate Apart(a: Block, b: Block) {
    a.start + a.len <= b.start || b.start + b.len <= a.start
  }

  ghost predicate Disjoint(live: seq<Block>) {
    forall i, j :: 0 <= i < j < |live| ==> Apart(live[i], live[j])
  }

  function Total(live: seq<Block>): nat {
    if live == [] then 0 else live[0].len + Total(live[1..])
  }

  /** Live allocations lie in the heap and apart, a block is marked exactly if one covers it, each
      header holds the length of its allocation, and the counter is the number of marked blocks
      and the sum of the lengths. */
  ghost predicate Inv(h: Heap) {
    && |h.mem| == WORDS_PER_BLOCK * |h.bits|
    && (forall i :: 0 <= i < |h.live| ==>
          h.live[i].len >= 1 && h.live[i].start + h.live[i].len <= |h.bits|)
    && Disjoint(h.live)
    && (forall k :: 0 <= k < |h.bits| ==> h.bits[k] == Covers(h.live, k))
    && Headers(h)
    && h.used == Used(h.bits) == Total(h.live)
  }

  ghost predicate Headers(h: Heap)
    requires |h.mem| == WORDS_PER_BLOCK * |h.bits|
  {
    forall i :: 0 <= i < |h.live| ==>
      WORDS_PER_BLOCK * h.live[i].start < |h.mem| && h.mem[WORDS_PER_BLOCK * h.live[i].start] == h.live[i].len
  }

  lemma LiveFits(h: Heap, i: nat)
    requires Inv(h) && i < |h.live|
    ensures WORDS_PER_BLOCK * h.live[i].start < |h.mem|
    ensures h.mem[WORDS_PER_BLOCK * h.live[i].start] == h.live[i].len
  {
  }

  lemma EmptyHeapInv(bits: seq<bool>, mem: seq<nat>)
    requires |mem| == WORDS_PER_BLOCK * |bits| && forall k :: 0 <= k < |bits| ==> !bits[k]
    ensures Inv(Heap(bits, 0, mem, []))
  {
    NoneUsed(bits);
  }

  lemma {:induction false} NoneUsed(b: seq<bool>)
    requires forall k :: 0 <= k < |b| ==> !b[k]
    ensures Used(b) == 0
  {
    if b != [] {
      NoneUsed(b[..|b| - 1]);
    }
  }

  lemma {:induction false} TotalAppend(live: seq<Block>, b: Block)
    ensures Total(live + [b]) == Total(live) + b.len
  {
    if live != [] {
      assert (live + [b])[1..] == live[1..] + [b];
      TotalAppend(live[1..], b);
    }
  }

  lemma {:induction false} TotalRemove(live: seq<Block>, i: nat)
    requires i < |live|
    ensures Total(live) == Total(Without(live, i)) + live[i].len
  {
    if i == 0 {
      assert Without(live, 0) == live[1..];
    } else {
      TotalRemove(live[1..], i - 1);
      assert Without(live, i)[1..] == Without(live[1..], i - 1);
    }
  }

  lemma CoversAppend(live: seq<Block>, b: Block, k: int)
    ensures Covers(live + [b], k) <==> Covers(live, k) || b.start <= k < b.start + b.len
  {
    var l := live + [b];
    if Covers(live, k) {
      var i :| 0 <= i < |live| && live[i].start <= k < live[i].start + live[i].len;
      assert l[i] == live[i];
    }
    assert l[|live|] == b;
  }

  /** A new allocation is apart from every live one. */
  lemma FreeRunIsApart(h: Heap, f: nat, n: nat, i: nat)
    requires Inv(h) && FreeRun(h.bits, f, n) && n >= 1 && i < |h.live|
    ensures Apart(h.live[i], Block(f, n))
  {
    var b := h.live[i];
    if !Apart(b, Block(f, n)) {
      var k := if f <= b.start then b.start else f;
      assert Covers(h.live, k);
    }
  }

  lemma MallocKeepsApart(h: Heap, f: nat, n: nat)
    requires Inv(h) && FreeRun(h.bits, f, n) && n >= 1
    ensures Disjoint(h.live + [Block(f, n)])
    ensures forall i :: 0 <= i < |h.live| ==> h.live[i].start != f
  {
    forall i | 0 <= i < |h.live| ensures Apart(h.live[i], Block(f, n)) { FreeRunIsApart(h, f, n, i); }
  }

  lemma MallocKeepsHeaders(h: Heap, f: nat, n: nat)
    requires Inv(h) && FreeRun(h.bits, f, n) && n >= 1
    ensures Headers(Heap(h.bits, h.used, h.mem[WORDS_PER_BLOCK * f := n], h.live + [Block(f, n)]))
  {
    MallocKeepsApart(h, f, n);
  }

  lemma MallocKeepsMarks(h: Heap, f: nat, n: nat)
    requires Inv(h) && FreeRun(h.bits, f, n)
    ensures forall k :: 0 <= k < |h.bits| ==>
      SetRange(h.bits, f, n, true)[k] == Covers(h.live + [Block(f, n)], k)
  {
    forall k | 0 <= k < |h.bits| ensures SetRange(h.bits, f, n, true)[k] == Covers(h.live + [Block(f, n)], k) {
      CoversAppend(h.live, Block(f, n), k);
    }
  }

  lemma MallocKeepsInv(h: Heap, n: nat)
    requires Inv(h) && n >= 1
    ensures Inv(Malloc(h, n).0)
  {
    hide Total, Used;
    var f := Malloc(h, n).1;
    if f != -1 {
      MallocKeepsApart(h, f, n);
      MallocKeepsMarks(h, f, n);
      UsedAfterRange(h.bits, f, n, true);
      TotalAppend(h.live, Block(f, n));
      MallocKeepsHeaders(h, f, n);
    }
  }

  /** malloc gives null exactly when no long enough run of blocks is free. */
  lemma MallocFailsIffNoRun(h: Heap, n: nat)
    requires Inv(h) && n >= 1
    ensures Malloc(h, n).1 == -1 <==> forall s :: !FreeRun(h.bits, s, n)
    ensures Malloc(h, n).1 != -1 ==> FreeRun(h.bits, Malloc(h, n).1, n)
  {
    if h.used >= |h.bits| {
      AllUsed(h.bits);
      forall s | 0 <= s && s + n <= |h.bits| ensures !FreeRun(h.bits, s, n) {
        assert h.bits[s];
      }
    }
  }

  /** `live` without its i-th allocation. */
  function Without(live: seq<Block>, i: nat): (r: seq<Block>)
    requires i < |live|
    ensures |r| == |live| - 1
    ensures forall j :: 0 <= j < i ==> r[j] == live[j]
    ensures forall j :: i < j < |live| ==> r[j - 1] == live[j]
  {
    live[..i] + live[i + 1..]
  }

  predicate In(b: Block, k: int) {
    b.start <= k < b.start + b.len
  }

  lemma CoversWithout(live: seq<Block>, i: nat, k: int)
    requires i < |live| && Covers(live, k) && !In(live[i], k)
    ensures Covers(Without(live, i), k)
  {
    var m :| 0 <= m < |live| && live[m].start <= k < live[m].start + live[m].len;
    assert Without(live, i)[if m < i then m else m - 1] == live[m];
  }

  lemma WithoutCovers(live: seq<Block>, i: nat, k: int)
    requires Disjoint(live) && i < |live| && Covers(Without(live, i), k)
    ensures Covers(live, k) && !In(live[i], k)
  {
    var rest := Without(live, i);
    var j :| 0 <= j < |rest| && rest[j].start <= k < rest[j].start + rest[j].len;
    if j < i {
      assert live[j] == rest[j] && Apart(live[j], live[i]);
    } else {
      assert live[j + 1] == rest[j] && Apart(live[i], live[j + 1]);
    }
  }

  lemma FreeKeepsMarks(h: Heap, i: nat)
    requires Inv(h) && i < |h.live|
    ensures var b := h.live[i]; forall k :: 0 <= k < |h.bits| ==>
      SetRange(h.bits, b.start, b.len, false)[k] == Covers(Without(h.live, i), k)
    ensures forall k :: h.live[i].start <= k < h.live[i].start + h.live[i].len ==> h.bits[k]
  {
    var b := h.live[i];
    forall k | 0 <= k < |h.bits|
      ensures SetRange(h.bits, b.start, b.len, false)[k] == Covers(Without(h.live, i), k)
    {
      if Covers(Without(h.live, i), k) {
        WithoutCovers(h.live, i, k);
      } else if Covers(h.live, k) && !In(b, k) {
        CoversWithout(h.live, i, k);
      }
    }
    forall k | b.start <= k < b.start + b.len ensures h.bits[k] { assert Covers(h.live, k); }
  }

  lemma FreeKeepsInv(h: Heap, i: nat)
    requires Inv(h) && i < |h.live|
    ensures Inv(Free(h, i))
  {
    hide Total, Used, Covers, SetRange;
    var b := h.live[i];
    LiveFits(h, i);
    FreeKeepsMarks(h, i);
    UsedAfterRange(h.bits, b.start, b.len, false);
    TotalRemove(h.live, i);
  }

  /** Freeing what was just allocated restores the bitmap and the counter. */
  lemma FreeUndoesMalloc(h: Heap, n: nat)
    requires Inv(h) && n >= 1 && Malloc(h, n).1 != -1
    ensures var g := Malloc(h, n).0;
            && Inv(g) && g.live == h.live + [Block(Malloc(h, n).1, n)]
            && Free(g, |h.live|).bits == h.bits && Free(g, |h.live|).used == h.used
            && Free(g, |h.live|).live == h.live
  {
    MallocKeepsInv(h, n);
    var (g, f) := Malloc(h, n);
    assert g.live[|h.live|] == Block(f, n);
  }

  /** No write into a payload touches a header. */
  lemma PayloadWriteKeepsInv(h: Heap, w: nat, v: nat)
    requires Inv(h) && InPayload(h, w)
    ensures w < |h.mem| && Inv(h.(mem := h.mem[w := v]))
  {
    var i :| 0 <= i < |h.live| && PayloadOf(h.live[i], w);
    assert h.live[i].start + h.live[i].len <= |h.bits|;
    var g := h.(mem := h.mem[w := v]);
    forall j | 0 <= j < |g.live| ensures WORDS_PER_BLOCK * g.live[j].start != w {
      if j < i {
        assert Apart(h.live[j], h.live[i]);
      } else if i < j {
        assert Apart(h.live[i], h.live[j]);
      }
    }
  }

  // ---------------------------------------------------------------- what live blocks hold

  /** A word of a payload is no header, neither of a live block nor of one that comes. */
  lemma PayloadIsNoHeader(h: Heap, b: Block, w: nat, f: nat, n: nat)
    requires Inv(h) && b in h.live && PayloadOf(b, w) && FreeRun(h.bits, f, n) && n >= 1
    ensures w < |h.mem| && w != 2 * f
  {
    var i :| 0 <= i < |h.live| && h.live[i] == b;
    FreeRunIsApart(h, f, n, i);
  }

  /** malloc and free leave the payload of every live block as it is: the only word that is written is the
      first of the new block, which then holds its length. */
  lemma PayloadSurvives(h: Heap, b: Block, w: nat, n: nat, i: nat)
    requires Inv(h) && b in h.live && PayloadOf(b, w) && n >= 1 && i < |h.live|
    ensures var g := Malloc(h, n).0;
      w < |h.mem| == |g.mem| && b in g.live && g.mem[w] == h.mem[w]
    ensures Free(h, i).mem == h.mem
    ensures var (g, f) := Malloc(h, n);
      f >= 0 ==>
        2 * f < |h.mem| && g.mem[2 * f] == n && forall k :: 0 <= k < |h.mem| && k != 2 * f ==> g.mem[k] == h.mem[k]
  {
    var j :| 0 <= j < |h.live| && h.live[j] == b;
    var f := Malloc(h, n).1;
    if f != -1 {
      PayloadIsNoHeader(h, b, w, f, n);
      assert (h.live + [Block(f, n)])[j] == b;
    }
  }

  /** The pointer that is given out stands right behind the header, and all `size` bytes from it on are
      payload of the new block. */
  lemma PointerIsPayload(f: nat, size: nat, k: nat)
    ensures k < size ==> PayloadOf(Block(f, BlocksFor(size)), (8 * f + 4 + k) / 4)
    ensures HEAP_BLOCK_SIZE * f + BLOCK_AMT_DESC_SIZE == 8 * f + 4 == 4 * (2 * f + 1)
  {
    hide BlocksFor;
    var n := BlocksFor(size);
    if k < size {
      assert (8 * f + 4 + k) / 4 == 2 * f + 1 + k / 4;
    }
  }

  // ---------------------------------------------------------------- histories

  datatype Call = MallocCall(size: nat) | FreeCall(i: nat) | Store(w: nat, v: nat)

  ghost predicate Legal(h: Heap, c: Call) {
    match c
    case MallocCall(size) => size <= MAX_REQUEST
    case FreeCall(i) => i < |h.live|
    case Store(w, _) => InPayload(h, w)
  }

  ghost function Do(h: Heap, c: Call): (g: Heap)
    requires Inv(h) && Legal(h, c)
    ensures Inv(g) && |g.bits| == |h.bits|
  {
    match c
    case MallocCall(size) => MallocKeepsInv(h, BlocksFor(size)); Malloc(h, BlocksFor(size)).0
    case FreeCall(i) => FreeKeepsInv(h, i); Free(h, i)
    case Store(w, v) => PayloadWriteKeepsInv(h, w, v); h.(mem := h.mem[w := v])
  }

  ghost predicate LegalRun(h: Heap, cs: seq<Call>)
    requires Inv(h)
    decreases |cs|
  {
    cs == [] || (Legal(h, cs[0]) && LegalRun(Do(h, cs[0]), cs[1..]))
  }

  ghost function DoAll(h: Heap, cs: seq<Call>): (g: Heap)
    requires Inv(h) && LegalRun(h, cs)
    ensures Inv(g)
    decreases |cs|
  {
    if cs == [] then h else DoAll(Do(h, cs[0]), cs[1..])
  }

  /** Whatever is allocated, freed and written through live pointers, starting from an empty heap:
      live allocations are apart and inside, exactly their blocks are marked, every header still
      holds the length of its allocation, and the counter is the sum of the lengths. */
  lemma EveryHistory(bits: seq<bool>, mem: seq<nat>, cs: seq<Call>)
    requires |mem| == WORDS_PER_BLOCK * |bits| && forall k :: 0 <= k < |bits| ==> !bits[k]
    requires Inv(Heap(bits, 0, mem, [])) ==> LegalRun(Heap(bits, 0, mem, []), cs)
    ensures Inv(Heap(bits, 0, mem, []))
    ensures Inv(DoAll(Heap(bits, 0, mem, []), cs))
  {
    EmptyHeapInv(bits, mem);
  }

  /** Block `b` is live at the start and after every call. */
  ghost predicate StaysLive(h: Heap, b: Block, cs: seq<Call>)
    requires Inv(h) && LegalRun(h, cs)
    decreases |cs|
  {
    b in h.live && (cs == [] || StaysLive(Do(h, cs[0]), b, cs[1..]))
  }

  /** What was stored last at word `w`, or else `v`. */
  function LastStored(v: nat, w: nat, cs: seq<Call>): nat
    decreases |cs|
  {
    if cs == [] then v
    else LastStored(if cs[0].Store? && cs[0].w == w then cs[0].v else v, w, cs[1..])
  }

  lemma CallKeepsPayload(h: Heap, c: Call, b: Block, w: nat)
    requires Inv(h) && Legal(h, c) && b in h.live && PayloadOf(b, w)
    ensures w < |h.mem| == |Do(h, c).mem|
    ensures Do(h, c).mem[w] == if c.Store? && c.w == w then c.v else h.mem[w]
  {
    match c
    case MallocCall(size) => PayloadSurvives(h, b, w, BlocksFor(size), 0);
    case FreeCall(i) => PayloadSurvives(h, b, w, 1, i);
    case Store(x, v) =>
      PayloadSurvives(h, b, w, 1, 0);
      PayloadWriteKeepsInv(h, x, v);
  }

  /** Over every history a payload word of a block that stays live holds what was last stored there,
      whatever is allocated, freed and stored elsewhere meanwhile. */
  lemma {:induction false} PayloadHolds(h: Heap, cs: seq<Call>, b: Block, w: nat)
    requires Inv(h) && LegalRun(h, cs) && StaysLive(h, b, cs) && PayloadOf(b, w)
    ensures w < |h.mem| == |DoAll(h, cs).mem|
    ensures DoAll(h, cs).mem[w] == LastStored(h.mem[w], w, cs)
    decreases |cs|
  {
    if cs == [] {
      PayloadSurvives(h, b, w, 1, 0);
    } else {
      CallKeepsPayload(h, cs[0], b, w);
      PayloadHolds(Do(h, cs[0]), cs[1..], b, w);
    }
  }
}
