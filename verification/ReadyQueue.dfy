/**
  The ready queue as a value: the sequence of the threads it holds, head first.
  The linked list of Scheduler.dfy is proved to behave like the functions here.
 */
module ReadyQueue {
  import opened Powers

  const THREAD_BLOCK_SLEEP: bv32 := 2
  const THREAD_TERMINATE: bv32 := 4
  const THREAD_SUSPENDED: bv32 := 8

  /** The scheduling part of a thread; `parent` is the address of its process block. */
  datatype Thread = Thread(
    tid: int, priority: nat, state: bv32, sleepTimeDelta: nat, kernelESP: nat, parent: nat)
  {
    predicate Terminated() { state & THREAD_TERMINATE != 0 }
    predicate Sleeping() { state & THREAD_BLOCK_SLEEP != 0 }
    predicate Suspended() { state & THREAD_SUSPENDED != 0 }
    predicate Runnable() { !Terminated() && !Sleeping() && !Suspended() }
    function SetState(flags: bv32): Thread { this.(state := state | flags) }
    function RemoveState(flags: bv32): Thread { this.(state := state & !flags) }
  }

  type Queue = seq<Thread>

  ghost predicate DistinctTids(q: Queue) {
    forall i, j :: 0 <= i < j < |q| ==> q[i].tid != q[j].tid
  }

  // ---------------------------------------------------------------- insertion and rotation

  /** The thread goes after the first entry of strictly lower priority (a larger number is a
      lower priority), or after the last entry; never before the head. */
  function InsertPrioritized(q: Queue, t: Thread): (r: Queue)
    ensures |r| == |q| + 1
    ensures q != [] ==> r[0] == q[0]
  {
    if q == [] then [t]
    else if |q| == 1 || q[0].priority > t.priority then [q[0], t] + q[1..]
    else [q[0]] + InsertPrioritized(q[1..], t)
  }

  lemma {:induction false} InsertElements(q: Queue, t: Thread)
    ensures multiset(InsertPrioritized(q, t)) == multiset(q) + multiset{t}
  {
    if q != [] {
      assert q == [q[0]] + q[1..];
      if !(|q| == 1 || q[0].priority > t.priority) {
        InsertElements(q[1..], t);
      }
    }
  }

  /** Where that is: right behind the entry at `k - 1`, the first of lower priority, or at the end. */
  lemma {:induction false} InsertPlace(q: Queue, t: Thread, k: nat)
    requires 0 < k <= |q| && (k < |q| ==> q[k - 1].priority > t.priority)
    requires forall i :: 0 <= i < k - 1 ==> q[i].priority <= t.priority
    ensures InsertPrioritized(q, t) == q[..k] + [t] + q[k..]
  {
    if k > 1 {
      InsertPlace(q[1..], t, k - 1);
      assert q[..k] == [q[0]] + q[1..][..k - 1];
    }
  }

  /** One round-robin step: remove the head and insert it by priority. */
  function Rotate(q: Queue): (r: Queue)
    requires q != []
    ensures |r| == |q|
  {
    InsertPrioritized(q[1..], q[0])
  }

  lemma RotateElements(q: Queue)
    requires q != []
    ensures multiset(Rotate(q)) == multiset(q)
  {
    InsertElements(q[1..], q[0]);
    assert q == [q[0]] + q[1..];
  }

  predicate HasLower(q: Queue, t: Thread) {
    exists i :: 0 <= i < |q| && q[i].priority > t.priority
  }

  /** What one rotation does to the entries ahead of an entry: the head stays ahead only if an
      entry of strictly lower priority is ahead too. */
  function AheadStep(ahead: Queue): (r: Queue)
    requires ahead != []
  {
    if HasLower(ahead[1..], ahead[0]) then InsertPrioritized(ahead[1..], ahead[0]) else ahead[1..]
  }

  /** Insertion before an entry of strictly lower priority does not see what lies behind it. */
  lemma {:induction false} InsertBefore(a: Queue, rest: Queue, t: Thread)
    requires HasLower(a, t)
    ensures InsertPrioritized(a + rest, t) == InsertPrioritized(a, t) + rest
  {
    assert (a + rest)[0] == a[0] && (a + rest)[1..] == a[1..] + rest;
    if a[0].priority <= t.priority {
      assert HasLower(a[1..], t) by {
        var i :| 0 <= i < |a| && a[i].priority > t.priority;
        assert a[1..][i - 1] == a[i];
      }
      InsertBefore(a[1..], rest, t);
    }
  }

  /** Without one, insertion goes on behind. */
  lemma {:induction false} InsertBehind(a: Queue, rest: Queue, t: Thread)
    requires !HasLower(a, t) && rest != []
    ensures InsertPrioritized(a + rest, t) == a + InsertPrioritized(rest, t)
  {
    if a == [] {
      assert a + rest == rest;
    } else {
      assert (a + rest)[0] == a[0] && (a + rest)[1..] == a[1..] + rest;
      assert a[0].priority <= t.priority;
      assert !HasLower(a[1..], t) by {
        assert forall i :: 0 <= i < |a[1..]| ==> a[1..][i] == a[i + 1];
      }
      InsertBehind(a[1..], rest, t);
    }
  }

  /** The rotated queue, split at an entry that had `k > 0` entries ahead. */
  function BehindStep(q: Queue, k: nat): Queue
    requires 0 < k < |q|
  {
    if HasLower(q[1..k], q[0]) then q[k + 1..] else InsertPrioritized(q[k..], q[0])[1..]
  }

  /** Such an entry then stands behind exactly the `AheadStep` of the entries it stood behind. */
  lemma RotateAround(q: Queue, k: nat)
    requires 0 < k < |q|
    ensures Rotate(q) == AheadStep(q[..k]) + [q[k]] + BehindStep(q, k)
  {
    var a := q[1..k];
    assert q[..k][1..] == a && q[..k][0] == q[0];
    assert q[1..] == a + q[k..];
    assert q[k..] == [q[k]] + q[k + 1..];
    if HasLower(a, q[0]) {
      InsertBefore(a, q[k..], q[0]);
      assert AheadStep(q[..k]) + q[k..] == AheadStep(q[..k]) + [q[k]] + q[k + 1..];
    } else {
      InsertBehind(a, q[k..], q[0]);
      var r := InsertPrioritized(q[k..], q[0]);
      assert r == [q[k]] + r[1..];
      assert a + r == a + [q[k]] + r[1..];
    }
  }
}
