/**
 * Algebra of the pager's frame queues (`std::queue<unsigned int>` in the
 * source, sequences here with the front at index 0): the initial fill
 * ranges, the clock-queue removal of Pager/vm_helper.cpp, and the partition
 * of physical frames between the free queue and the clock queue.
 */
module Queues {

  /** [lo, lo+1, ..., hi-1]: what `vm_init`'s fill loops push. */
  function Range(lo: nat, hi: nat): (r: seq<nat>)
    ensures |r| == if lo <= hi then hi - lo else 0
    ensures forall k :: 0 <= k < |r| ==> r[k] == lo + k
    decreases hi - lo
  {
    if lo >= hi then [] else [lo] + Range(lo + 1, hi)
  }

  /** No value occurs twice. */
  ghost predicate NoDup(s: seq<nat>) {
    forall x :: multiset(s)[x] <= 1
  }

  /** Appending a value not yet present keeps a sequence duplicate-free. */
  lemma NoDupAppend(s: seq<nat>, x: nat)
    requires NoDup(s) && x !in s
    ensures NoDup(s + [x])
  {
    assert multiset(s + [x]) == multiset(s) + multiset{x};
  }

  /** `s` with every occurrence of `p` dropped, the rest in their order. */
  function Without(s: seq<nat>, p: nat): (r: seq<nat>)
    ensures forall x :: x in r <==> x in s && x != p
    ensures forall x :: multiset(r)[x] == if x == p then 0 else multiset(s)[x]
  {
    if s == [] then []
    else
      assert s == [s[0]] + s[1..];
      (if s[0] == p then [] else [s[0]]) + Without(s[1..], p)
  }

  lemma {:induction false} WithoutAppend(a: seq<nat>, b: seq<nat>, p: nat)
    ensures Without(a + b, p) == Without(a, p) + Without(b, p)
  {
    if a != [] {
      WithoutAppend(a[1..], b, p);
      assert (a + b)[1..] == a[1..] + b;
    } else {
      assert a + b == b;
    }
  }

  /** The queue `RemoveFromClockQueue(p)` (Pager/vm_helper.cpp:101-120)
      leaves behind: a head equal to `p` is popped; otherwise the head is
      requeued and the other elements cycle through once, those equal to `p`
      dropped, until the old head is back at the front. */
  function RemoveFromClock(q: seq<nat>, p: nat): (r: seq<nat>)
    requires q != []
  {
    if q[0] == p then q[1..] else [q[0]] + Without(q[1..], p)
  }

  /** On a queue without duplicates, removal deletes exactly `p` and keeps
      every other frame in its original order; an absent `p` changes nothing. */
  lemma RemoveFromClockIsWithout(q: seq<nat>, p: nat)
    requires q != [] && NoDup(q)
    ensures RemoveFromClock(q, p) == Without(q, p)
    ensures p !in q ==> RemoveFromClock(q, p) == q
  {
    assert q == [q[0]] + q[1..];
    if q[0] == p {
      assert multiset(q)[p] == multiset(q[1..])[p] + 1;
      assert p !in q[1..];
      WithoutAbsent(q[1..], p);
    }
    if p !in q {
      WithoutAbsent(q, p);
    }
  }

  lemma {:induction false} WithoutAbsent(s: seq<nat>, p: nat)
    requires p !in s
    ensures Without(s, p) == s
  {
    if s != [] {
      WithoutAbsent(s[1..], p);
      assert s == [s[0]] + s[1..];
    }
  }

  /** Every frame 1..m-1 is in exactly one of the two queues, once; frame 0
      (the zero page) is in neither. */
  ghost predicate Partition(free: seq<nat>, clock: seq<nat>, m: nat) {
    forall x :: multiset(free + clock)[x] == if 1 <= x < m then 1 else 0
  }

  lemma PartitionNoDup(free: seq<nat>, clock: seq<nat>, m: nat)
    requires Partition(free, clock, m)
    ensures NoDup(free) && NoDup(clock)
    ensures forall x :: x in free ==> 1 <= x < m && x !in clock
    ensures forall x :: x in clock ==> 1 <= x < m && x !in free
  {
    forall x: nat ensures multiset(free + clock)[x] == multiset(free)[x] + multiset(clock)[x] {
    }
    forall x: nat | x in free || x in clock ensures 1 <= x < m && (x in free ==> x !in clock) {
      assert multiset(free + clock)[x] == multiset(free)[x] + multiset(clock)[x];
    }
  }

  /** `vm_init`: frames 1..m-1 free, nothing on the clock. */
  lemma PartitionInit(m: nat)
    ensures Partition(Range(1, m), [], m)
  {
    forall x: nat ensures multiset(Range(1, m) + [])[x] == if 1 <= x < m then 1 else 0 {
      RangeCount(1, m, x);
      assert Range(1, m) + [] == Range(1, m);
    }
  }

  lemma {:induction false} RangeCount(lo: nat, hi: nat, x: nat)
    ensures multiset(Range(lo, hi))[x] == if lo <= x < hi then 1 else 0
    decreases hi - lo
  {
    if lo < hi {
      RangeCount(lo + 1, hi, x);
      assert Range(lo, hi) == [lo] + Range(lo + 1, hi);
    }
  }

  /** Taking the front free frame and appending it to the clock queue
      (Pager/vm_helper.cpp:31-37) keeps the partition. */
  lemma PartitionTakeFree(free: seq<nat>, clock: seq<nat>, m: nat)
    requires Partition(free, clock, m) && free != []
    ensures Partition(free[1..], clock + [free[0]], m)
  {
    assert free + clock == [free[0]] + (free[1..] + clock);
    assert multiset(free[1..] + (clock + [free[0]])) == multiset(free + clock);
  }

  /** Moving the clock head to the tail keeps the partition. */
  lemma PartitionRotate(free: seq<nat>, clock: seq<nat>, m: nat)
    requires Partition(free, clock, m) && clock != []
    ensures Partition(free, clock[1..] + [clock[0]], m)
  {
    assert clock == [clock[0]] + clock[1..];
    assert multiset(free + (clock[1..] + [clock[0]])) == multiset(free + clock);
  }

  /** Returning a clock frame to the free queue
      (Pager/vm_pager.cpp:76-77, 119-120) keeps the partition. */
  lemma PartitionRelease(free: seq<nat>, clock: seq<nat>, m: nat, p: nat)
    requires Partition(free, clock, m) && p in clock
    ensures Partition(free + [p], Without(clock, p), m)
  {
    PartitionNoDup(free, clock, m);
    var r: seq<nat> := Without(clock, p);
    var fp: seq<nat> := free + [p];
    assert free + [p] + r == fp + r;
    forall x: nat ensures multiset(fp + r)[x] == if 1 <= x < m then 1 else 0 {
      assert multiset(fp + r)[x] == multiset(free)[x] + (if x == p then 1 else 0) + multiset(r)[x];
      assert multiset(free + clock)[x] == multiset(free)[x] + multiset(clock)[x];
      assert multiset(clock)[p] == 1;
    }
  }

  /** Moving a duplicate-free batch of clock frames to the free queue
      (Pager/vm_pager.cpp:75-78, once per released page) keeps the
      partition. */
  lemma PartitionReleaseAll(free: seq<nat>, clock: seq<nat>, m: nat, batch: seq<nat>, rest: seq<nat>)
    requires Partition(free, clock, m) && NoDup(batch)
    requires forall x :: x in batch ==> x in clock
    requires forall x :: multiset(rest)[x] == if x in batch then 0 else multiset(clock)[x]
    ensures Partition(free + batch, rest, m)
    ensures forall x :: x in rest <==> x in clock && x !in batch
  {
    PartitionNoDup(free, clock, m);
    forall x: nat ensures multiset(free + batch + rest)[x] == if 1 <= x < m then 1 else 0 {
      assert multiset(free + batch + rest)[x] == multiset(free)[x] + multiset(batch)[x] + multiset(rest)[x];
      assert multiset(free + clock)[x] == multiset(free)[x] + multiset(clock)[x];
      if x in batch {
        assert multiset(batch)[x] == 1 && multiset(clock)[x] == 1;
      } else {
        assert multiset(batch)[x] == 0;
      }
    }
    forall x ensures x in rest <==> x in clock && x !in batch {
      assert x in rest <==> multiset(rest)[x] > 0;
    }
  }
}
