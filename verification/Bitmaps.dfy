/** A bitmap of blocks in 32-bit words, as the frame allocator and both heaps keep it. */
module Bitmaps {

  import opened Words

  // ---------------------------------------------------------------- the bitmap as a sequence

  ghost predicate BitAt(words: seq<bv32>, k: nat)
    requires k < 32 * |words|
  {
    Bit(words[k / 32], k % 32)
  }

  ghost function Bits(words: seq<bv32>): (b: seq<bool>)
    ensures |b| == 32 * |words|
  {
    seq(32 * |words|, k requires 0 <= k < 32 * |words| => BitAt(words, k))
  }

  ghost predicate FreeRun(b: seq<bool>, s: int, n: nat) {
    0 <= s && s + n <= |b| && forall k :: s <= k < s + n ==> !b[k]
  }

  /** The least start of `n` free blocks in a row, or -1 if there is none. */
  ghost function FirstRun(b: seq<bool>, n: nat, from: nat := 0): (r: int)
    ensures r == -1 || (from <= r && FreeRun(b, r, n))
    ensures forall s :: from <= s && (r == -1 || s < r) ==> !FreeRun(b, s, n)
    decreases |b| - from
  {
    if FreeRun(b, from, n) then from
    else if from + n >= |b| then -1
    else FirstRun(b, n, from + 1)
  }

  /** `FirstRun` is determined by what it promises. */
  lemma FirstRunUnique(b: seq<bool>, n: nat, r: int)
    requires r == -1 || FreeRun(b, r, n)
    requires forall s :: 0 <= s && (r == -1 || s < r) ==> !FreeRun(b, s, n)
    ensures FirstRun(b, n) == r
  {
  }

  function SetRange(b: seq<bool>, s: nat, n: nat, v: bool): (r: seq<bool>)
    requires s + n <= |b|
    ensures |r| == |b|
    ensures forall k :: 0 <= k < |b| ==> r[k] == if s <= k < s + n then v else b[k]
  {
    seq(|b|, k requires 0 <= k < |b| => if s <= k < s + n then v else b[k])
  }

  function Used(b: seq<bool>): (n: nat)
    ensures n <= |b|
  {
    if b == [] then 0 else (if b[|b| - 1] then 1 else 0) + Used(b[..|b| - 1])
  }

  lemma {:induction false} UsedAfterUpdate(b: seq<bool>, k: nat, v: bool)
    requires k < |b|
    ensures Used(b[k := v]) == Used(b) - (if b[k] then 1 else 0) + (if v then 1 else 0)
    decreases |b|
  {
    var m := |b| - 1;
    if k < m {
      assert b[k := v][..m] == b[..m][k := v];
      UsedAfterUpdate(b[..m], k, v);
    } else {
      assert b[k := v][..m] == b[..m];
    }
  }

  /** Occupying a free run adds its length to the number of used blocks; freeing a used run takes it. */
  lemma {:induction false} UsedAfterRange(b: seq<bool>, s: nat, n: nat, v: bool)
    requires s + n <= |b| && forall k :: s <= k < s + n ==> b[k] != v
    ensures Used(SetRange(b, s, n, v)) == if v then Used(b) + n else Used(b) - n
  {
    if n == 0 {
      assert SetRange(b, s, n, v) == b;
    } else {
      UsedAfterRange(b, s, n - 1, v);
      RangeStep(b, s, n, v);
      UsedAfterUpdate(SetRange(b, s, n - 1, v), s + n - 1, v);
    }
  }

  lemma RangeStep(b: seq<bool>, s: nat, n: nat, v: bool)
    requires 0 < n && s + n <= |b|
    ensures SetRange(b, s, n - 1, v)[s + n - 1] == b[s + n - 1]
    ensures SetRange(b, s, n, v) == SetRange(b, s, n - 1, v)[s + n - 1 := v]
  {
  }

  lemma {:induction false} AllUsed(b: seq<bool>)
    ensures Used(b) == |b| <==> forall k :: 0 <= k < |b| ==> b[k]
  {
    if b != [] {
      var m := |b| - 1;
      AllUsed(b[..m]);
      assert forall k :: 0 <= k < m ==> b[..m][k] == b[k];
    }
  }

  /** The number of blocks that are not used. */
  function Unused(b: seq<bool>): (n: nat) { |b| - Used(b) }

  lemma UnusedPositive(b: seq<bool>, k: nat)
    requires k < |b| && !b[k]
    ensures Unused(b) >= 1
  {
    AllUsed(b);
  }

  /** `b` is `a` with block `k` used. */
  lemma OneMore(a: seq<bool>, b: seq<bool>, k: nat)
    requires |a| == |b| && k < |a| && b[k] && forall j :: 0 <= j < |a| && j != k ==> a[j] == b[j]
    ensures Unused(b) == Unused(a) - (if a[k] then 0 else 1)
  {
    assert b == a[k := true];
    UsedAfterUpdate(a, k, true);
  }

  // ---------------------------------------------------------------- searches and updates

  /** mmap_test, with the bit number split as the scans have it */
  method TestBit(words: array<bv32>, i: nat, j: nat) returns (occupied: bool)
    requires i < words.Length && j < 32
    ensures occupied == Bits(words[..])[32 * i + j]
  {
    occupied := Bit(words[i], j);
  }

  lemma FirstFreeIs(b: seq<bool>, p: nat)
    requires p <= |b| && (forall k :: 0 <= k < p ==> b[k]) && (p < |b| ==> !b[p])
    ensures FirstRun(b, 1) == if p < |b| then p else -1
  {
    forall s | 0 <= s < p ensures !FreeRun(b, s, 1) { assert b[s]; }
    FirstRunUnique(b, 1, if p < |b| then p else -1);
  }

  /** mmap_first_free */
  method FirstFree(words: array<bv32>) returns (r: int)
    ensures r == FirstRun(Bits(words[..]), 1)
  {
    ghost var b := Bits(words[..]);
    var i := 0;
    while i < words.Length
      invariant i <= words.Length
      invariant forall k :: 0 <= k < 32 * i ==> b[k]
    {
      if words[i] != FULL {
        var j := 0;
        while j < 32
          invariant j <= 32
          invariant forall k :: 0 <= k < 32 * i + j ==> b[k]
        {
          var occupied := TestBit(words, i, j);
          if !occupied {
            FirstFreeIs(b, i * 4 * 8 + j);
            return i * 4 * 8 + j;
          }
          j := j + 1;
        }
      } else {
        FullWord(words[..], i);
      }
      i := i + 1;
    }
    FirstFreeIs(b, |b|);
    return -1;
  }

  lemma FullWord(words: seq<bv32>, i: nat)
    requires i < |words| && words[i] == FULL
    ensures forall k :: 32 * i <= k < 32 * (i + 1) ==> Bits(words)[k]
  {
    forall k | 32 * i <= k < 32 * (i + 1) ensures Bits(words)[k] {
      BitOfFull(k % 32);
    }
  }

  /** How far the scan for `n` free blocks has got: `run` free blocks end at `p`, and none of the
      runs before is long enough. */
  ghost predicate Scanned(b: seq<bool>, n: nat, p: nat, run: nat) {
    && run <= p <= |b| && run < n
    && (forall k :: p - run <= k < p ==> !b[k])
    && (run < p ==> b[p - run - 1])
    && (forall s :: 0 <= s && s + n <= p ==> !FreeRun(b, s, n))
  }

  lemma ScanFree(b: seq<bool>, n: nat, p: nat, run: nat)
    requires Scanned(b, n, p, run) && p < |b| && !b[p]
    ensures run + 1 < n ==> Scanned(b, n, p + 1, run + 1)
    ensures run + 1 == n ==> FirstRun(b, n) == p - run
  {
    forall s | 0 <= s && s + n <= p + 1 && s < p - run ensures !FreeRun(b, s, n) {
      if s + n == p + 1 {
        assert b[p - run - 1];
      }
    }
    if run + 1 == n {
      FirstRunUnique(b, n, p - run);
    }
  }

  lemma ScanUsed(b: seq<bool>, n: nat, p: nat, q: nat, run: nat)
    requires Scanned(b, n, p, run) && p < q <= |b| && forall k :: p <= k < q ==> b[k]
    ensures Scanned(b, n, q, 0)
  {
    forall s | 0 <= s && s + n <= q ensures !FreeRun(b, s, n) {
      if s + n > p {
        assert b[s + n - 1];
      }
    }
  }

  /** The scan of one bit: `run'` free blocks now end behind it and start at `first'`. */
  method ScanBit(words: array<bv32>, i: nat, j: nat, seqLen: nat, run: nat, first: nat)
    returns (run': nat, first': nat)
    requires i < words.Length && j < 32
    requires Scanned(Bits(words[..]), seqLen, 32 * i + j, run)
    requires run > 0 ==> first == 32 * i + j - run
    ensures run' <= seqLen
    ensures run' < seqLen ==> Scanned(Bits(words[..]), seqLen, 32 * i + j + 1, run')
    ensures 0 < run' < seqLen ==> first' == 32 * i + j + 1 - run'
    ensures run' == seqLen ==> first' == FirstRun(Bits(words[..]), seqLen)
  {
    run', first' := run, first;
    ghost var b, p := Bits(words[..]), 32 * i + j;
    var occupied := TestBit(words, i, j);
    if !occupied {
      ScanFree(b, seqLen, p, run);
      if run' == 0 {
        first' := i * 4 * 8 + j;
      }
      run' := run' + 1;
    } else {
      ScanUsed(b, seqLen, p, p + 1, run);
      run' := 0;
    }
  }

  /** The scan of one word; `found` is the start of a long enough run. */
  method ScanWord(words: array<bv32>, i: nat, seqLen: nat, run: nat, first: nat)
    returns (found: int, run': nat, first': nat)
    requires i < words.Length && run < seqLen
    requires Scanned(Bits(words[..]), seqLen, 32 * i, run)
    requires run > 0 ==> first == 32 * i - run
    ensures found >= 0 ==> found == FirstRun(Bits(words[..]), seqLen)
    ensures found < 0 ==> run' < seqLen && Scanned(Bits(words[..]), seqLen, 32 * (i + 1), run')
    ensures found < 0 && run' > 0 ==> first' == 32 * (i + 1) - run'
  {
    hide Scanned, Bits, FirstRun;
    run', first' := run, first;
    var j := 0;
    while j < 32
      invariant j <= 32 && run' < seqLen
      invariant Scanned(Bits(words[..]), seqLen, 32 * i + j, run')
      invariant run' > 0 ==> first' == 32 * i + j - run'
    {
      run', first' := ScanBit(words, i, j, seqLen, run', first');
      if run' == seqLen {
        return first', run', first';
      }
      j := j + 1;
    }
    found := -1;
  }

  /** mmap_first_free_s: whole words that are full are skipped. */
  method FirstFreeRun(words: array<bv32>, seqLen: nat) returns (r: int)
    requires seqLen >= 1
    ensures r == FirstRun(Bits(words[..]), seqLen)
  {
    ghost var b := Bits(words[..]);
    var currentSeqLen, currentSetFirstIndex := 0, 0;
    var i := 0;
    while i < words.Length
      invariant i <= words.Length
      invariant Scanned(b, seqLen, 32 * i, currentSeqLen)
      invariant currentSeqLen > 0 ==> currentSetFirstIndex == 32 * i - currentSeqLen
    {
      if words[i] != FULL {
        r, currentSeqLen, currentSetFirstIndex := ScanWord(words, i, seqLen, currentSeqLen, currentSetFirstIndex);
        if r >= 0 { return; }
      } else {
        FullWord(words[..], i);
        ScanUsed(b, seqLen, 32 * i, 32 * (i + 1), currentSeqLen);
        currentSeqLen := 0;
      }
      i := i + 1;
    }
    FirstRunUnique(b, seqLen, -1);
    return -1;
  }

  /** The bitmap after one word has changed in one bit. */
  lemma OneBitChanged(before: seq<bv32>, after: seq<bv32>, bit: nat, v: bool)
    requires bit < 32 * |before| && |after| == |before|
    requires forall i :: 0 <= i < |before| && i != bit / 32 ==> after[i] == before[i]
    requires forall j :: 0 <= j < 32 ==>
      Bit(after[bit / 32], j) == if j == bit % 32 then v else Bit(before[bit / 32], j)
    ensures Bits(after) == Bits(before)[bit := v]
  {
    forall k | 0 <= k < 32 * |before| ensures BitAt(after, k) == if k == bit then v else BitAt(before, k) {
      assert k == bit <==> k / 32 == bit / 32 && k % 32 == bit % 32;
    }
  }

  /** mmap_set */
  method SetBit(words: array<bv32>, bit: nat)
    requires bit < 32 * words.Length
    modifies words
    ensures Bits(words[..]) == Bits(old(words[..]))[bit := true]
  {
    ghost var w := words[bit / 32];
    words[bit / 32] := words[bit / 32] | Mask(bit % 32);
    forall j | 0 <= j < 32 ensures Bit(words[bit / 32], j) == (j == bit % 32 || Bit(w, j)) {
      BitAfterUpdate(w, j, bit % 32);
    }
    OneBitChanged(old(words[..]), words[..], bit, true);
  }

  /** mmap_unset */
  method UnsetBit(words: array<bv32>, bit: nat)
    requires bit < 32 * words.Length
    modifies words
    ensures Bits(words[..]) == Bits(old(words[..]))[bit := false]
  {
    ghost var w := words[bit / 32];
    words[bit / 32] := words[bit / 32] & !Mask(bit % 32);
    forall j | 0 <= j < 32 ensures Bit(words[bit / 32], j) == (j != bit % 32 && Bit(w, j)) {
      BitAfterUpdate(w, j, bit % 32);
    }
    OneBitChanged(old(words[..]), words[..], bit, false);
  }
}
