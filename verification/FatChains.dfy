/** Cluster chains in the table of entries, and the allocation that extends them. */
module FatChains {
  import opened Bitmaps
  import opened FatEntries

  /** The entries 0 to 0xFFF. */
  ghost predicate ValidTable(t: seq<nat>) {
    |t| == 0x1000 && forall n :: 0 <= n < 0x1000 ==> t[n] < 0x1000
  }

  /** The lowest free entry from `n` on, or 0xFF0 if the scan finds none. */
  function LowestFree(t: seq<nat>, n: nat := 2): (r: nat)
    requires |t| == 0x1000 && 2 <= n <= CLUSTERS
    ensures n <= r <= 0xFF0
    ensures r < 0xFF0 ==> t[r] == 0
    ensures forall m :: n <= m < r ==> t[m] != 0
    decreases CLUSTERS - n
  {
    if n == CLUSTERS || t[n] == 0 then n else LowestFree(t, n + 1)
  }

  /** occupy_free_cluster on the table: the new cluster ends a chain, and `chain` unless 0 leads to it. */
  function Occupied(t: seq<nat>, chain: nat): (r: (seq<nat>, nat))
    requires |t| == 0x1000 && chain < 0x1000
    ensures |r.0| == 0x1000 && 2 <= r.1 <= CLUSTERS
  {
    var n := LowestFree(t);
    if n == CLUSTERS then (t, n)
    else (if chain != 0 then t[n := END][chain := n] else t[n := END], n)
  }

  // ---------------------------------------------------------------- chains

  /** The clusters of `cs` are linked in this order, and the last one ends the chain. */
  ghost predicate Chain(t: seq<nat>, cs: seq<nat>) {
    && |t| == 0x1000 && |cs| > 0
    && (forall i :: 0 <= i < |cs| ==> 2 <= cs[i] < 0xFF0)
    && (forall i :: 0 <= i < |cs| - 1 ==> t[cs[i]] == cs[i + 1])
    && t[cs[|cs| - 1]] >= 0xFF8
  }

  /** A chain never comes back to a cluster. */
  lemma {:induction false} Acyclic(t: seq<nat>, cs: seq<nat>, i: nat, j: nat)
    requires Chain(t, cs) && i < j < |cs|
    ensures cs[i] != cs[j]
    decreases |cs| - j
  {
    assert t[cs[i]] == cs[i + 1];
    if j < |cs| - 1 {
      assert t[cs[j]] == cs[j + 1];
      Acyclic(t, cs, i + 1, j + 1);
    }
  }

  lemma TailChain(t: seq<nat>, cs: seq<nat>, i: nat)
    requires Chain(t, cs) && i < |cs|
    ensures Chain(t, cs[i..])
  {
    var r := cs[i..];
    forall k | 0 <= k < |r| - 1 ensures t[r[k]] == r[k + 1] { assert t[cs[i + k]] == cs[i + k + 1]; }
    assert r[|r| - 1] == cs[|cs| - 1];
  }

  /** Clusters of a chain are not free. */
  lemma ChainIsOccupied(t: seq<nat>, cs: seq<nat>, i: nat)
    requires Chain(t, cs) && i < |cs|
    ensures t[cs[i]] != 0
  {
    assert i < |cs| - 1 ==> t[cs[i]] == cs[i + 1];
  }

  /** With a free cluster, allocation for a chain's tail appends exactly the lowest free cluster. */
  lemma AppendsLowestFree(t: seq<nat>, cs: seq<nat>)
    requires Chain(t, cs) && LowestFree(t) < CLUSTERS
    ensures var (t', n) := Occupied(t, cs[|cs| - 1]);
      Chain(t', cs + [n]) && n !in cs && n == LowestFree(t) && t' == t[n := 0xFF8][cs[|cs| - 1] := n]
  {
    var tail := cs[|cs| - 1];
    var (t', n) := Occupied(t, tail);
    forall i | 0 <= i < |cs| ensures cs[i] != n { ChainIsOccupied(t, cs, i); }
    forall i | 0 <= i < |cs| - 1 ensures cs[i] != tail { Acyclic(t, cs, i, |cs| - 1); }
    assert t'[n] == END && t'[tail] == n;
  }

  // ---------------------------------------------------------------- all files together

  /** No cluster is in two chains, nor twice in one. */
  ghost predicate Apart(files: seq<seq<nat>>) {
    forall i, k, j, l ::
      (0 <= i < |files| && 0 <= k < |files[i]| && 0 <= j < |files| && 0 <= l < |files[j]| && files[i][k] == files[j][l])
      ==> i == j && k == l
  }

  /** Every file has a chain, and the chains are apart. */
  ghost predicate Files(t: seq<nat>, files: seq<seq<nat>>) {
    Apart(files) && forall i :: 0 <= i < |files| ==> Chain(t, files[i])
  }

  /** A table that has every entry of a chain has the chain. */
  lemma SameChain(t: seq<nat>, u: seq<nat>, cs: seq<nat>)
    requires Chain(t, cs) && |u| == 0x1000 && forall i :: 0 <= i < |cs| ==> u[cs[i]] == t[cs[i]]
    ensures Chain(u, cs)
  {
  }

  /** A new file starts with the lowest free cluster, and no other chain changes. */
  lemma CreateKeepsFiles(t: seq<nat>, files: seq<seq<nat>>)
    requires Files(t, files) && |t| == 0x1000 && LowestFree(t) < CLUSTERS
    ensures Files(Occupied(t, 0).0, files + [[LowestFree(t)]])
  {
    var (u, n) := Occupied(t, 0);
    forall i, k | 0 <= i < |files| && 0 <= k < |files[i]| ensures files[i][k] != n && u[files[i][k]] == t[files[i][k]] {
      ChainIsOccupied(t, files[i], k);
    }
    forall i | 0 <= i < |files| ensures Chain(u, files[i]) { SameChain(t, u, files[i]); }
    assert Chain(u, [n]);
  }

  /** Appending a cluster to one file leaves the others alone. */
  lemma AppendKeepsFiles(t: seq<nat>, files: seq<seq<nat>>, f: nat)
    requires Files(t, files) && f < |files| && LowestFree(t) < CLUSTERS
    ensures var (u, n) := Occupied(t, files[f][|files[f]| - 1]);
      Files(u, files[f := files[f] + [n]])
  {
    var tail := files[f][|files[f]| - 1];
    var (u, n) := Occupied(t, tail);
    forall i, k | 0 <= i < |files| && 0 <= k < |files[i]| ensures files[i][k] != n {
      ChainIsOccupied(t, files[i], k);
    }
    forall i | 0 <= i < |files| && i != f ensures Chain(u, files[i]) {
      forall k | 0 <= k < |files[i]| ensures u[files[i][k]] == t[files[i][k]] {
        assert files[i][k] != tail;
      }
      SameChain(t, u, files[i]);
    }
    AppendsLowestFree(t, files[f]);
  }

  // ---------------------------------------------------------------- several clusters at once

  /** `k` allocations in a row, each for the cluster before: the table and the new clusters. */
  function Grow(t: seq<nat>, tail: nat, k: nat): (r: (seq<nat>, seq<nat>))
    requires |t| == 0x1000 && tail < 0x1000
    ensures |r.0| == 0x1000 && |r.1| == k
    decreases k
  {
    if k == 0 then (t, [])
    else
      var (u, n) := Occupied(t, tail);
      var (v, ns) := Grow(u, n, k - 1);
      (v, [n] + ns)
  }

  /** How many clusters below `limit` are free. */
  ghost function FreeBelow(t: seq<nat>, limit: nat): nat
    requires |t| == 0x1000 && limit <= CLUSTERS
  {
    Unused(seq(limit, n requires 0 <= n < limit => n < 2 || t[n] != 0))
  }

  /** With a free cluster below `limit` the allocation takes one of those, and one fewer is free. */
  lemma OccupyBelow(t: seq<nat>, chain: nat, limit: nat)
    requires |t| == 0x1000 && 2 <= chain < 0x1000 && t[chain] != 0 && limit <= CLUSTERS && FreeBelow(t, limit) >= 1
    ensures var (u, n) := Occupied(t, chain);
      n < limit && FreeBelow(u, limit) == FreeBelow(t, limit) - 1
  {
    var b := seq(limit, n requires 0 <= n < limit => n < 2 || t[n] != 0);
    AllUsed(b);
    var m :| 0 <= m < limit && !b[m];
    var (u, n) := Occupied(t, chain);
    OneMore(b, seq(limit, n requires 0 <= n < limit => n < 2 || u[n] != 0), n);
  }

  /** A chain with one more cluster, and one free cluster fewer below `limit`. */
  lemma AppendBelow(t: seq<nat>, cs: seq<nat>, limit: nat)
    requires Chain(t, cs) && limit <= CLUSTERS && FreeBelow(t, limit) >= 1
    ensures var (u, n) := Occupied(t, cs[|cs| - 1]);
      Chain(u, cs + [n]) && n < limit && FreeBelow(u, limit) == FreeBelow(t, limit) - 1
  {
    ChainIsOccupied(t, cs, |cs| - 1);
    OccupyBelow(t, cs[|cs| - 1], limit);
    AppendsLowestFree(t, cs);
  }

  lemma GrowStep(t: seq<nat>, cs: seq<nat>, k: nat)
    requires |t| == 0x1000 && |cs| > 0 && cs[|cs| - 1] < 0x1000 && k > 0
    ensures var (u, n) := Occupied(t, cs[|cs| - 1]);
      && (cs + [n])[|cs|] == n
      && Grow(t, cs[|cs| - 1], k).0 == Grow(u, n, k - 1).0
      && Grow(t, cs[|cs| - 1], k).1 == [n] + Grow(u, n, k - 1).1
      && cs + Grow(t, cs[|cs| - 1], k).1 == cs + [n] + Grow(u, n, k - 1).1
  {
    var (u, n) := Occupied(t, cs[|cs| - 1]);
    assert cs + ([n] + Grow(u, n, k - 1).1) == cs + [n] + Grow(u, n, k - 1).1;
  }

  predicate Below(cs: seq<nat>, limit: nat) {
    forall i :: 0 <= i < |cs| ==> cs[i] < limit
  }

  /** Growing a chain by clusters that are there. */
  lemma {:induction false} GrowKeepsChain(t: seq<nat>, cs: seq<nat>, k: nat, limit: nat)
    requires Chain(t, cs) && limit <= CLUSTERS && FreeBelow(t, limit) >= k
    ensures Chain(Grow(t, cs[|cs| - 1], k).0, cs + Grow(t, cs[|cs| - 1], k).1)
    ensures Below(cs, limit) ==> Below(cs + Grow(t, cs[|cs| - 1], k).1, limit)
    decreases k
  {
    if k == 0 {
      assert cs + [] == cs;
    } else {
      var (u, n) := Occupied(t, cs[|cs| - 1]);
      AppendBelow(t, cs, limit);
      GrowKeepsChain(u, cs + [n], k - 1, limit);
      GrowStep(t, cs, k);
    }
  }

  /** The clusters that a chain grows by were free. */
  lemma {:induction false} GrowTakesFree(t: seq<nat>, tail: nat, k: nat, limit: nat, m: nat)
    requires |t| == 0x1000 && 2 <= tail < 0x1000 && t[tail] != 0 && limit <= CLUSTERS
    requires FreeBelow(t, limit) >= k && m < k
    ensures Grow(t, tail, k).1[m] < limit && t[Grow(t, tail, k).1[m]] == 0
    decreases k
  {
    hide LowestFree, Used, FreeBelow, Unused;
    OccupyBelow(t, tail, limit);
    var (u, n) := Occupied(t, tail);
    if m > 0 {
      GrowTakesFree(u, n, k - 1, limit, m - 1);
    }
  }
}
