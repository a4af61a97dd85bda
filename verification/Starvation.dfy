/** How long an entry of the ready queue can wait for the head. */
module Starvation {
  import opened Powers
  import opened ReadyQueue

  // ---------------------------------------------------------------- the waiting potential

  /** `i` is the first entry of lowest priority. */
  ghost predicate IsLowest(a: Queue, i: nat) {
    && i < |a|
    && (forall j :: 0 <= j < i ==> a[j].priority < a[i].priority)
    && (forall j :: i <= j < |a| ==> a[j].priority <= a[i].priority)
  }

  lemma {:induction false} LowestExists(a: Queue) returns (i: nat)
    requires a != []
    ensures IsLowest(a, i)
  {
    if |a| == 1 {
      i := 0;
    } else {
      i := LowestExists(a[..|a| - 1]);
      if a[|a| - 1].priority > a[i].priority {
        i := |a| - 1;
      }
    }
  }

  ghost function Lowest(a: Queue): (i: nat)
    requires a != []
    ensures IsLowest(a, i)
  {
    assert exists i :: IsLowest(a, i) by { var i := LowestExists(a); }
    var i :| IsLowest(a, i);
    i
  }

  /** A bound on the rotations an entry still waits, from the entries ahead of it. */
  ghost function Potential(a: Queue): (p: nat)
    ensures p < Pow2(|a|)
  {
    if a == [] then 0
    else
      var i := Lowest(a);
      Pow2Monotone(i, |a| - 1);
      Pow2(|a| - 1) + Potential(a[..i])
  }

  lemma LowestUnique(a: Queue, i: nat)
    requires IsLowest(a, i)
    ensures Lowest(a) == i
  {
    var there, here := a[Lowest(a)], a[i];
  }

  lemma {:induction false} PotentialByPriority(a: Queue, b: Queue)
    requires |a| == |b|
    requires forall i :: 0 <= i < |a| ==> a[i].priority == b[i].priority
    ensures Potential(a) == Potential(b)
  {
    if a != [] {
      var i := Lowest(a);
      LowestUnique(b, i);
      PotentialByPriority(a[..i], b[..i]);
    }
  }

  lemma AheadStepElements(a: Queue)
    requires a != []
    ensures forall t :: t in AheadStep(a) ==> t in a
  {
    assert a == [a[0]] + a[1..];
    InsertElements(a[1..], a[0]);
    forall t | t in AheadStep(a) ensures t in a {
      assert t in multiset(AheadStep(a));
      assert t in multiset(a);
    }
  }

  /** Rearranging a queue around its first lowest-priority entry. */
  lemma LowestIn(a: Queue, i: nat, c: Queue, z: Queue)
    requires IsLowest(a, i)
    requires forall t :: t in c ==> t in a[..i]
    requires forall t :: t in c + [a[i]] + z ==> t in a
    ensures Lowest(c + [a[i]] + z) == |c|
  {
    var s := c + [a[i]] + z;
    forall j | 0 <= j < |c| ensures s[j].priority < a[i].priority { assert s[j] in c; }
    forall j | |c| <= j < |s| ensures s[j].priority <= a[i].priority { assert s[j] in a; }
    LowestUnique(s, |c|);
  }

  /** A rotation around the first lowest-priority entry, when that is not the head. */
  lemma StepAroundLowest(a: Queue, i: nat)
    requires 0 < i && IsLowest(a, i)
    ensures var c, s := AheadStep(a[..i]), AheadStep(a);
            |s| == |a| && Lowest(s) == |c| && s[..|c|] == c
  {
    var c, z := AheadStep(a[..i]), BehindStep(a, i);
    assert HasLower(a[1..], a[0]) by { assert a[1..][i - 1] == a[i]; }
    RotateAround(a, i);
    assert AheadStep(a) == c + [a[i]] + z;
    AheadStepElements(a);
    AheadStepElements(a[..i]);
    LowestIn(a, i, c, z);
  }

  lemma HeadLeaves(a: Queue)
    requires a != [] && Lowest(a) == 0
    ensures AheadStep(a) == a[1..]
  {
  }

  lemma PotentialInside(a: Queue, s: Queue, i: nat, n: nat)
    requires a != [] && Lowest(a) == i
    requires |s| == |a| && Lowest(s) == n
    requires Potential(s[..n]) < Potential(a[..i])
    ensures Potential(s) < Potential(a)
  {
  }

  lemma PotentialOfTail(a: Queue)
    requires a != []
    ensures Potential(a[1..]) < Potential(a)
  {
    assert Potential(a[1..]) < Pow2(|a| - 1);
  }

  /** Every rotation of a waiting entry lowers its potential. */
  lemma {:induction false} RotationLowersPotential(a: Queue)
    requires a != []
    ensures Potential(AheadStep(a)) < Potential(a)
    decreases |a|
  {
    var i := Lowest(a);
    if i == 0 {
      HeadLeaves(a);
      PotentialOfTail(a);
    } else {
      StepAroundLowest(a, i);
      RotationLowersPotential(a[..i]);
      PotentialInside(a, AheadStep(a), i, |AheadStep(a[..i])|);
    }
  }

  // ---------------------------------------------------------------- runs

  /** What happens to the queue between two looks at an entry: a rotation, a thread appended
      at the tail, the head reaped, or a thread's state changed in place. */
  datatype Step = Rotation | TailInsert(t: Thread) | DropHead | Change(i: nat, t: Thread)

  predicate Possible(q: Queue, s: Step) {
    match s
    case Rotation => q != []
    case TailInsert(_) => true
    case DropHead => q != []
    case Change(i, t) => i < |q| && t.priority == q[i].priority && t.tid == q[i].tid
  }

  function Apply(q: Queue, s: Step): Queue
    requires Possible(q, s)
  {
    match s
    case Rotation => Rotate(q)
    case TailInsert(t) => q + [t]
    case DropHead => q[1..]
    case Change(i, t) => q[i := t]
  }

  predicate PossibleRun(q: Queue, steps: seq<Step>)
    decreases |steps|
  {
    steps == [] || (Possible(q, steps[0]) && PossibleRun(Apply(q, steps[0]), steps[1..]))
  }

  function Run(q: Queue, steps: seq<Step>): Queue
    requires PossibleRun(q, steps)
    decreases |steps|
  {
    if steps == [] then q else Run(Apply(q, steps[0]), steps[1..])
  }

  function Rotations(steps: seq<Step>): nat {
    if steps == [] then 0 else (if steps[0].Rotation? then 1 else 0) + Rotations(steps[1..])
  }

  /** Where an entry with `k > 0` entries ahead stands after one step. */
  function Place(q: Queue, k: nat, s: Step): nat
    requires 0 < k < |q| && Possible(q, s)
  {
    match s
    case Rotation => |AheadStep(q[..k])|
    case TailInsert(_) => k
    case DropHead => k - 1
    case Change(_, _) => k
  }

  /** No step adds to the potential of a waiting entry, and a rotation takes from it. */
  lemma StepLowersPotential(q: Queue, k: nat, s: Step)
    requires 0 < k < |q| && Possible(q, s)
    ensures var r, p := Apply(q, s), Place(q, k, s);
            && p <= k && p < |r| && r[p].tid == q[k].tid
            && Potential(r[..p]) + (if s.Rotation? then 1 else 0) <= Potential(q[..k])
  {
    var r, p := Apply(q, s), Place(q, k, s);
    match s
    case Rotation =>
      RotateAround(q, k);
      assert r[..p] == AheadStep(q[..k]);
      RotationLowersPotential(q[..k]);
    case TailInsert(_) =>
      assert r[..p] == q[..k];
    case DropHead =>
      assert r[..p] == q[..k][1..];
      PotentialOfTail(q[..k]);
    case Change(_, _) =>
      PotentialByPriority(q[..k], r[..p]);
  }

  /** At some point of the run, with at most `bound` rotations behind it, thread `tid` is the head. */
  ghost predicate ReachesHead(q: Queue, tid: int, steps: seq<Step>, bound: nat)
    requires PossibleRun(q, steps)
  {
    exists j: nat ::
      && j <= |steps| && PossibleRun(q, steps[..j]) && Rotations(steps[..j]) <= bound
      && Run(q, steps[..j]) != [] && Run(q, steps[..j])[0].tid == tid
  }

  lemma HeadLater(q: Queue, steps: seq<Step>, tid: int, bound: nat)
    requires steps != [] && PossibleRun(q, steps)
    requires ReachesHead(Apply(q, steps[0]), tid, steps[1..], bound)
    ensures ReachesHead(q, tid, steps, bound + if steps[0].Rotation? then 1 else 0)
  {
    var r, rest := Apply(q, steps[0]), steps[1..];
    var j: nat :|
      && j <= |rest| && PossibleRun(r, rest[..j]) && Rotations(rest[..j]) <= bound
      && Run(r, rest[..j]) != [] && Run(r, rest[..j])[0].tid == tid;
    var pre := steps[..j + 1];
    assert pre[1..] == rest[..j] && pre[0] == steps[0];
    assert Run(q, pre) == Run(r, rest[..j]);
  }

  lemma HeadWithin(q: Queue, steps: seq<Step>, tid: int, bound: nat, wider: nat)
    requires PossibleRun(q, steps) && bound <= wider && ReachesHead(q, tid, steps, bound)
    ensures ReachesHead(q, tid, steps, wider)
  {
    var j: nat :|
      && j <= |steps| && PossibleRun(q, steps[..j]) && Rotations(steps[..j]) <= bound
      && Run(q, steps[..j]) != [] && Run(q, steps[..j])[0].tid == tid;
    assert Rotations(steps[..j]) <= wider;
  }

  lemma {:induction false} PotentialBoundsWait(q: Queue, k: nat, steps: seq<Step>)
    requires k < |q| && PossibleRun(q, steps)
    requires Rotations(steps) >= Potential(q[..k])
    ensures ReachesHead(q, q[k].tid, steps, Potential(q[..k]))
    decreases |steps|
  {
    if k == 0 {
      assert steps[..0] == [];
      assert PossibleRun(q, steps[..0]) && Run(q, steps[..0]) == q;
    } else {
      RotationLowersPotential(q[..k]);
      var s := steps[0];
      StepLowersPotential(q, k, s);
      var r, p := Apply(q, s), Place(q, k, s);
      PotentialBoundsWait(r, p, steps[1..]);
      HeadLater(q, steps, q[k].tid, Potential(r[..p]));
      HeadWithin(q, steps, q[k].tid, Potential(r[..p]) + if s.Rotation? then 1 else 0, Potential(q[..k]));
    }
  }

  /** No starvation: an entry with `k` entries ahead stands at the head at some point of every run
      that has 2^k - 1 rotations, whatever the priorities are and whatever is appended in between. */
  lemma NoStarvation(q: Queue, k: nat, steps: seq<Step>)
    requires k < |q| && PossibleRun(q, steps)
    requires Rotations(steps) >= Pow2(k) - 1
    ensures ReachesHead(q, q[k].tid, steps, Pow2(k) - 1)
  {
    PotentialBoundsWait(q, k, steps);
    HeadWithin(q, steps, q[k].tid, Potential(q[..k]), Pow2(k) - 1);
  }

  // ---------------------------------------------------------------- the bound is tight

  function Rotated(q: Queue, n: nat): (r: Queue)
    requires q != []
    ensures |r| == |q|
    decreases n
  {
    if n == 0 then q else Rotated(Rotate(q), n - 1)
  }

  lemma {:induction false} RotatedSum(q: Queue, m: nat, n: nat)
    requires q != []
    ensures Rotated(q, m + n) == Rotated(Rotated(q, m), n)
    decreases m
  {
    if m > 0 {
      RotatedSum(Rotate(q), m - 1, n);
    }
  }

  /** Priorities strictly increase (each entry is of lower priority than the one before). */
  ghost predicate Ascending(a: Queue) {
    forall i, j :: 0 <= i < j < |a| ==> a[i].priority < a[j].priority
  }

  ghost predicate HeadsIn(q: Queue, n: nat, a: Queue)
    requires q != []
  {
    forall j: nat :: j < n ==> Rotated(q, j)[0] in a
  }

  lemma HeadsInSum(q: Queue, m: nat, n: nat, a: Queue)
    requires q != [] && HeadsIn(q, m, a) && HeadsIn(Rotated(q, m), n, a)
    ensures HeadsIn(q, m + n, a)
  {
    forall j: nat | j < m + n ensures Rotated(q, j)[0] in a {
      if j >= m {
        RotatedSum(q, m, j - m);
      }
    }
  }

  lemma AscendingPart(a: Queue, x: Thread)
    requires a != [] && Ascending(a + [x])
    ensures Ascending(a) && Ascending(a[..|a| - 1] + [x])
  {
    var b := a[..|a| - 1];
    forall i, j | 0 <= i < j < |a| ensures a[i].priority < a[j].priority {
      assert a[i] == (a + [x])[i] && a[j] == (a + [x])[j];
    }
    forall i, j | 0 <= i < j < |b + [x]| ensures (b + [x])[i].priority < (b + [x])[j].priority {
      assert (b + [x])[i] == (a + [x])[i];
      assert (b + [x])[j] == (a + [x])[if j < |b| then j else |a|];
    }
  }

  lemma LowestGoesBehind(b: Queue, m: Thread, x: Thread, rest: Queue)
    requires Ascending(b + [m] + [x])
    ensures Rotate([m] + b + [x] + rest) == b + [x] + ([m] + rest)
  {
    var q := [m] + b + [x] + rest;
    assert q[1..] == b + ([x] + rest) && q[0] == m;
    assert (b + [m] + [x])[|b|] == m && (b + [m] + [x])[|b| + 1] == x;
    forall i | 0 <= i < |b| ensures b[i].priority <= m.priority { assert (b + [m] + [x])[i] == b[i]; }
    InsertBehind(b, [x] + rest, m);
    assert ([x] + rest)[1..] == rest;
  }

  lemma HeadNotLast(a: Queue, x: Thread)
    requires Ascending(a + [x])
    ensures x !in a
  {
    forall i | 0 <= i < |a| ensures a[i] != x { assert (a + [x])[i] == a[i] && (a + [x])[|a|] == x; }
  }

  /** The 2^k - 1 rotations can all be needed: behind `k` entries of rising priority number, the
      next one is at the head after exactly 2^k - 1 rotations and never before. */
  lemma {:induction false} BoundIsTight(a: Queue, x: Thread, rest: Queue)
    requires Ascending(a + [x])
    ensures Rotated(a + [x] + rest, Pow2(|a|) - 1) == [x] + a + rest
    ensures HeadsIn(a + [x] + rest, Pow2(|a|) - 1, a) && x !in a
    decreases |a|
  {
    hide InsertPrioritized, Rotate, Ascending;
    HeadNotLast(a, x);
    var q := a + [x] + rest;
    if a == [] {
      assert q == [x] + a + rest;
    } else {
      var b, m := a[..|a| - 1], a[|a| - 1];
      var h := Pow2(|b|) - 1;
      assert a == b + [m];
      AscendingPart(a, x);
      var q1, q2 := [m] + b + [x] + rest, b + [x] + ([m] + rest);
      assert q == b + [m] + ([x] + rest);
      assert q1 == [m] + b + ([x] + rest);
      assert [x] + b + ([m] + rest) == [x] + a + rest;
      // b and m first, then m goes behind x, and b goes round once more.
      BoundIsTight(b, m, [x] + rest);
      LowestGoesBehind(b, m, x, rest);
      BoundIsTight(b, x, [m] + rest);
      ThreePhases(q, q1, q2, h);
      TightHeads(q, q1, q2, h, b, a);
    }
  }

  lemma ThreePhases(q: Queue, q1: Queue, q2: Queue, h: nat)
    requires q != [] && q1 != [] && Rotated(q, h) == q1 && Rotate(q1) == q2
    ensures Rotated(q, h + (1 + h)) == Rotated(q2, h)
  {
    RotatedSum(q, h, 1 + h);
    assert Rotated(q1, 1 + h) == Rotated(Rotate(q1), h);
  }

  lemma TightHeads(q: Queue, q1: Queue, q2: Queue, h: nat, b: Queue, a: Queue)
    requires q != [] && q1 != [] && q2 != [] && b <= a
    requires Rotated(q, h) == q1 && Rotate(q1) == q2 && q1[0] in a
    requires HeadsIn(q, h, b) && HeadsIn(q2, h, b)
    ensures HeadsIn(q, h + (1 + h), a)
  {
    HeadsInWider(q, h, b, a);
    HeadsInWider(q2, h, b, a);
    assert HeadsIn(q1, 1, a) by { assert Rotated(q1, 0) == q1; }
    assert Rotated(q1, 1) == Rotated(q2, 0) == q2;
    HeadsInSum(q1, 1, h, a);
    HeadsInSum(q, h, 1 + h, a);
  }

  lemma HeadsInWider(q: Queue, n: nat, b: Queue, a: Queue)
    requires q != [] && HeadsIn(q, n, b) && b <= a
    ensures HeadsIn(q, n, a)
  {
  }
}
