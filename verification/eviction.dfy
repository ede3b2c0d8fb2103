/**
 * `Find_place_in_PM` (Pager/vm_helper.cpp:27-70) as specification functions
 * over `PagerState`: the free-frame path, the second-chance sweep that
 * clears referenced clock heads, and the eviction of the first unreferenced
 * head with its dirty write-back.
 */
module Eviction {
  import opened Common
  import opened Structure
  import opened Queues
  import opened PagerState

  // ---------------------------------------------------------------------
  // Free frame available (Pager/vm_helper.cpp:31-37)

  /** The front free frame goes to `replace` and joins the clock's tail. */
  function TakeFree(s: PagerState, replace: DiskBlock): PagerState
    requires s.freeFrames != []
  {
    var f := s.freeFrames[0];
    s.(freeFrames := s.freeFrames[1..], owner := s.owner[f := replace], clock := s.clock + [f])
  }

  // ---------------------------------------------------------------------
  // Second chance (Pager/vm_helper.cpp:43-53)

  /** The block that owns the clock head. */
  function HeadBlock(s: PagerState): DiskBlock
    requires s.clock != [] && s.clock[0] in s.owner
  {
    s.owner[s.clock[0]]
  }

  /** The canonical reference bit of the clock head's block. */
  predicate HeadReferenced(s: PagerState)
    requires s.clock != [] && s.clock[0] in s.owner
  {
    StatusOf(s, HeadBlock(s)).vptes.reference
  }

  /** The clock head moved to the tail. */
  function Rotate(s: PagerState): PagerState
    requires s.clock != []
  {
    s.(clock := s.clock[1..] + [s.clock[0]])
  }

  /** Rotating the clock keeps its contents, the bookkeeping's shape and the
      residency relation. */
  lemma RotateKeeps(s: PagerState, pending: nat)
    requires Structural(s) && s.clock != []
    ensures multiset(Rotate(s).clock) == multiset(s.clock)
    ensures forall f :: f in Rotate(s).clock <==> f in s.clock
    ensures Structural(Rotate(s))
    ensures Residency(s, pending) ==> Residency(Rotate(s), pending)
  {
    assert s.clock == [s.clock[0]] + s.clock[1..];
    PartitionRotate(s.freeFrames, s.clock, |s.physmem|);
  }

  /** The flags `Find_place_in_PM` gives a referenced head's block: no
      access, no reference, still resident, dirty kept. */
  function Unreferenced(st: BlockStatus): PageState {
    PageState(false, false, true, false, st.vptes.dirty)
  }

  /** A referenced head loses its reference and its access rights, keeps
      resident and dirty, and is requeued at the tail. */
  ghost function ClearHead(s: PagerState): PagerState
    requires Structural(s) && s.clock != []
  {
    HeadFrame(s);
    var tb := HeadBlock(s);
    Rotate(SetPageStateSpec(s, Unreferenced(StatusOf(s, tb)), tb, 0, false))
  }

  /** Clock frames whose owning block is canonically referenced. */
  ghost function RefFrames(s: PagerState): set<nat> {
    set f | f in s.clock && f in s.owner && StatusOf(s, s.owner[f]).vptes.reference
  }

  /** Clearing a referenced head keeps the bookkeeping's shape and the
      clock's contents. */
  lemma ClearHeadStructural(s: PagerState)
    requires Structural(s) && s.clock != []
    ensures Structural(ClearHead(s))
    ensures multiset(ClearHead(s).clock) == multiset(s.clock)
  {
    HeadFrame(s);
    var tb := HeadBlock(s);
    SetPageStateStructural(s, Unreferenced(StatusOf(s, tb)), tb, 0, false);
    RotateKeeps(SetPageStateSpec(s, Unreferenced(StatusOf(s, tb)), tb, 0, false), 0);
  }

  /** Clearing a referenced head strictly shrinks the set of referenced
      frames: the head leaves it and no frame joins it. */
  lemma ClearHeadProgress(s: PagerState)
    requires Structural(s) && s.clock != [] && HeadReferenced(s)
    ensures RefFrames(ClearHead(s)) < RefFrames(s)
  {
    HeadFrame(s);
    var tb := HeadBlock(s);
    var st := Unreferenced(StatusOf(s, tb));
    SetPageStateStatus(s, st, tb, 0, false);
    var r := ClearHead(s);
    assert s.clock == [s.clock[0]] + s.clock[1..];
    assert forall f :: f in r.clock <==> f in s.clock;
    assert s.clock[0] in RefFrames(s);
    assert s.clock[0] !in RefFrames(r);
    forall f | f in RefFrames(r) ensures f in RefFrames(s) {
      assert s.owner[f] != tb;
    }
  }

  /** The sweep: clear referenced heads until the head is unreferenced. */
  ghost function Sweep(s: PagerState): (r: PagerState)
    requires Structural(s) && s.clock != []
    ensures Structural(r) && r.clock != [] && !HeadReferenced(r)
    ensures multiset(r.clock) == multiset(s.clock)
    ensures r.owner == s.owner && r.sharers == s.sharers
    ensures r.freeFrames == s.freeFrames && r.freeSwap == s.freeSwap
    ensures r.physmem == s.physmem && r.disk == s.disk
    ensures r.currentPid == s.currentPid && r.ptbr == s.ptbr
    ensures r.processes.Keys == s.processes.Keys
    ensures forall pid :: pid in s.processes ==>
      r.processes[pid].currentPosition == s.processes[pid].currentPosition
    decreases RefFrames(s)
  {
    if !HeadReferenced(s) then s
    else
      ClearHeadStructural(s);
      ClearHeadProgress(s);
      Sweep(ClearHead(s))
  }

  lemma SubsetSmaller(a: set<nat>, b: set<nat>)
    requires a < b
    ensures |a| < |b|
  {
    var x :| x in b - a;
    assert b == a + (b - a);
    assert |b - a| >= 1 by {
      assert x in b - a;
    }
  }

  /** How many heads the sweep requeues before it finds a victim. */
  ghost function SweepSteps(s: PagerState): (n: nat)
    requires Structural(s) && s.clock != []
    ensures n <= |RefFrames(s)|
    decreases RefFrames(s)
  {
    if !HeadReferenced(s) then 0
    else
      ClearHeadStructural(s);
      ClearHeadProgress(s);
      SubsetSmaller(RefFrames(ClearHead(s)), RefFrames(s));
      1 + SweepSteps(ClearHead(s))
  }

  /** A set of queue elements has no more members than the queue. */
  lemma {:induction false} ElementsBound(q: seq<nat>, e: set<nat>)
    requires forall x :: x in e ==> x in q
    ensures |e| <= |q|
  {
    if q != [] {
      var rest := e - {q[0]};
      forall x | x in rest ensures x in q[1..] {
        assert x in q && x != q[0];
        assert q == [q[0]] + q[1..];
      }
      ElementsBound(q[1..], rest);
    } else {
      assert e == {};
    }
  }

  /** The victim is found within one pass: at most |clock| heads are
      requeued, each because its reference bit was set, and each visit clears
      the bit that the next visit of that frame would read. */
  lemma SweepWithinOnePass(s: PagerState)
    requires Structural(s) && s.clock != []
    ensures SweepSteps(s) <= |s.clock|
    ensures SweepSteps(s) == 0 <==> !HeadReferenced(s)
  {
    ElementsBound(s.clock, RefFrames(s));
  }

  // ---------------------------------------------------------------------
  // Residency across the sweep

  /** Rewriting the flags of one block resident on a real frame, keeping it
      resident on that frame and not pinned, keeps the residency relation. */
  lemma FlagsKeepResidency(status: Statuses, status': Statuses, clock: seq<nat>, owner: map<nat, DiskBlock>,
                           sh: Sharers, tb: DiskBlock)
    requires ZeroFrame(status) && NoAccessWhenOut(status)
    requires ClockOwned(clock, owner, status, sh, 0) && ResidentOnClock(status, clock, owner, sh)
    requires tb in status && status[tb].vptes.resident && status[tb].ptes.ppage != 0
    requires tb in status' && status'[tb].vptes.resident && status'[tb].ptes.ppage == status[tb].ptes.ppage
    requires !Pinned(status'[tb])
    requires forall b :: b != tb ==> (b in status' <==> b in status)
    requires forall b :: b != tb && b in status ==> status'[b] == status[b]
    ensures ZeroFrame(status') && NoAccessWhenOut(status')
    ensures ClockOwned(clock, owner, status', sh, 0) && ResidentOnClock(status', clock, owner, sh)
  {
  }

  /** Clearing the head keeps the residency relation between statuses,
      owners and the clock, and touches only a block resident on a real frame. */
  lemma ClearHeadResidency(s: PagerState)
    requires Coherent(s) && s.clock != []
    ensures Residency(ClearHead(s), 0)
    ensures forall b :: !(b in s.status && s.status[b].vptes.resident && s.status[b].ptes.ppage != 0) ==>
      StatusOf(ClearHead(s), b) == StatusOf(s, b)
  {
    HeadFrame(s);
    var h := s.clock[0];
    var tb := HeadBlock(s);
    var st := Unreferenced(StatusOf(s, tb));
    SetPageStateStatus(s, st, tb, 0, false);
    SetPageStateStructural(s, st, tb, 0, false);
    var r := SetPageStateSpec(s, st, tb, 0, false);
    assert h in s.clock;
    assert s.status[tb].ptes.ppage == h;
    forall b | b != tb && b in s.status ensures r.status[b] == s.status[b] {
      assert StatusOf(r, b) == StatusOf(s, b);
    }
    FlagsKeepResidency(s.status, r.status, s.clock, s.owner, s.sharers, tb);
    RotateKeeps(r, 0);
  }

  lemma {:induction false} SweepResidency(s: PagerState)
    requires Coherent(s) && s.clock != []
    ensures Residency(Sweep(s), 0)
    ensures forall b :: !(b in s.status && s.status[b].vptes.resident && s.status[b].ptes.ppage != 0) ==>
      StatusOf(Sweep(s), b) == StatusOf(s, b)
    decreases RefFrames(s)
  {
    if HeadReferenced(s) {
      ClearHeadStructural(s);
      ClearHeadProgress(s);
      ClearHeadResidency(s);
      var c := ClearHead(s);
      SweepResidency(c);
      forall b | !(b in s.status && s.status[b].vptes.resident && s.status[b].ptes.ppage != 0)
        ensures StatusOf(Sweep(s), b) == StatusOf(s, b)
      {
        assert StatusOf(c, b) == StatusOf(s, b);
        assert !(b in c.status && c.status[b].vptes.resident && c.status[b].ptes.ppage != 0);
      }
    }
  }

  // ---------------------------------------------------------------------
  // The victim (Pager/vm_helper.cpp:54-66)

  /** The write-back of a dirty victim: storage receives the frame's page. */
  function WriteBack(s: PagerState, tb: DiskBlock, h: nat): PagerState
    requires h < |s.physmem|
  {
    if StatusOf(s, tb).vptes.dirty then s.(disk := s.disk[StorageKeyOf(tb) := s.physmem[h]]) else s
  }

  /** The flags of an evicted block: all cleared. */
  const Evicted: PageState := PageState(false, false, false, false, false)

  /** The state a successful eviction leaves: the victim's block, written
      back first when dirty, gets every flag cleared; the frame goes to
      `replace` and is requeued. */
  ghost function EvictHead(s: PagerState, replace: DiskBlock): PagerState
    requires Structural(s) && s.clock != []
  {
    Rotate(Reassign(s, replace))
  }

  /** The eviction before the frame is requeued. */
  ghost function Reassign(s: PagerState, replace: DiskBlock): (r: PagerState)
    requires Structural(s) && s.clock != []
    ensures r.clock == s.clock
  {
    HeadFrame(s);
    var h := s.clock[0];
    var tb := HeadBlock(s);
    SetPageStateSpec(WriteBack(s, tb, h), Evicted, tb, 0, false).(owner := s.owner[h := replace])
  }

  /** The eviction step with the victim requeued when its write-back fails,
      so the frame stays on the clock, still holding its block. */
  ghost function Evict(s: PagerState, replace: DiskBlock, writeOk: bool): (PagerState, Option<nat>)
    requires Structural(s) && s.clock != []
  {
    HeadFrame(s);
    if StatusOf(s, HeadBlock(s)).vptes.dirty && !writeOk then (Rotate(s), None)
    else (EvictHead(s, replace), Some(s.clock[0]))
  }

  /** The eviction step as Pager/vm_helper.cpp:45 and 58-61 write it: the
      victim was already popped when the failed write-back throws. */
  ghost function EvictAsWritten(s: PagerState, replace: DiskBlock, writeOk: bool): (PagerState, Option<nat>)
    requires Structural(s) && s.clock != []
  {
    HeadFrame(s);
    if StatusOf(s, HeadBlock(s)).vptes.dirty && !writeOk then (s.(clock := s.clock[1..]), None)
    else (EvictHead(s, replace), Some(s.clock[0]))
  }

  /** As written, a failed write-back loses the victim frame: it is in
      neither queue afterwards, so frames 1..m-1 are no longer partitioned. */
  lemma EvictAsWrittenLosesFrame(s: PagerState, replace: DiskBlock)
    requires Structural(s) && s.clock != []
    requires StatusOf(s, s.owner[s.clock[0]]).vptes.dirty
    ensures var r := EvictAsWritten(s, replace, false).0;
      && 1 <= s.clock[0] < |r.physmem|
      && s.clock[0] !in r.freeFrames && s.clock[0] !in r.clock
      && !Partition(r.freeFrames, r.clock, |r.physmem|)
  {
    var h := s.clock[0];
    HeadFrame(s);
    PartitionNoDup(s.freeFrames, s.clock, |s.physmem|);
    var r := EvictAsWritten(s, replace, false).0;
    assert s.clock == [h] + s.clock[1..];
    assert multiset(s.clock)[h] == 1 + multiset(s.clock[1..])[h];
    assert h !in s.clock[1..];
    assert h !in s.freeFrames;
    assert multiset(r.freeFrames + r.clock) == multiset(r.freeFrames) + multiset(r.clock);
    assert multiset(r.freeFrames + r.clock)[h] == 0;
  }

  /** With the requeue, a failed write-back leaves the victim on the clock
      and the partition whole. */
  lemma EvictKeepsFrame(s: PagerState, replace: DiskBlock, writeOk: bool)
    requires Structural(s) && s.clock != []
    ensures var (r, f) := Evict(s, replace, writeOk);
      && Structural(r)
      && s.clock[0] in r.clock
      && (f.None? ==> r.owner == s.owner && r.status == s.status && r.disk == s.disk)
  {
    HeadFrame(s);
    RotateKeeps(s, 0);
    if !(StatusOf(s, HeadBlock(s)).vptes.dirty && !writeOk) {
      EvictStructural(s, replace);
    }
  }

  /** A successful eviction keeps the bookkeeping's shape; the victim's block
      ends with every flag cleared; storage changes only by the write-back. */
  lemma EvictStructural(s: PagerState, replace: DiskBlock)
    requires Structural(s) && s.clock != []
    ensures s.clock[0] < |s.physmem|
    ensures var r := EvictHead(s, replace);
      var tb := HeadBlock(s);
      && Structural(r)
      && s.clock[0] in r.clock
      && multiset(r.clock) == multiset(s.clock)
      && r.owner == s.owner[s.clock[0] := replace]
      && tb in r.status && StateOf(r.status[tb]) == Evicted
      && (StatusOf(s, tb).vptes.dirty ==> r.disk == s.disk[StorageKeyOf(tb) := s.physmem[s.clock[0]]])
      && (!StatusOf(s, tb).vptes.dirty ==> r.disk == s.disk)
  {
    HeadFrame(s);
    ReassignStructural(s, replace);
    ReassignFields(s, replace);
    RotateKeeps(Reassign(s, replace), 0);
  }

  lemma ReassignFields(s: PagerState, replace: DiskBlock)
    requires Structural(s) && s.clock != []
    ensures s.clock[0] < |s.physmem|
    ensures var r := Reassign(s, replace);
      var tb := HeadBlock(s);
      && r.owner == s.owner[s.clock[0] := replace]
      && tb in r.status && StateOf(r.status[tb]) == Evicted
      && (StatusOf(s, tb).vptes.dirty ==> r.disk == s.disk[StorageKeyOf(tb) := s.physmem[s.clock[0]]])
      && (!StatusOf(s, tb).vptes.dirty ==> r.disk == s.disk)
  {
    HeadFrame(s);
    SetPageStateStatus(WriteBack(s, HeadBlock(s), s.clock[0]), Evicted, HeadBlock(s), 0, false);
  }

  lemma ReassignStructural(s: PagerState, replace: DiskBlock)
    requires Structural(s) && s.clock != []
    ensures Structural(Reassign(s, replace))
  {
    HeadFrame(s);
    var s1 := WriteBack(s, HeadBlock(s), s.clock[0]);
    assert Structural(s1);
    SetPageStateStructural(s1, Evicted, HeadBlock(s), 0, false);
  }

  /** The evicted block's flags keep the frame-zero and no-access rules. */
  lemma ReassignFlags(w: PagerState, replace: DiskBlock)
    requires Structural(w) && Residency(w, 0) && w.clock != []
    ensures ZeroFrame(Reassign(w, replace).status)
    ensures NoAccessWhenOut(Reassign(w, replace).status)
  {
    HeadFrame(w);
    SetPageStateStatus(WriteBack(w, HeadBlock(w), w.clock[0]), Evicted, HeadBlock(w), 0, false);
  }

  /** Residency after a successful eviction: the victim frame is the one
      exception until its new owner is published; only the victim's block
      changes status. */
  lemma EvictResidency(w: PagerState, replace: DiskBlock)
    requires Structural(w) && Residency(w, 0) && w.clock != []
    ensures Residency(EvictHead(w, replace), w.clock[0])
    ensures forall b :: !(b in w.status && w.status[b].vptes.resident && w.status[b].ptes.ppage != 0) ==>
      StatusOf(EvictHead(w, replace), b) == StatusOf(w, b)
  {
    ReassignStructural(w, replace);
    ReassignFlags(w, replace);
    ReassignClockOwned(w, replace);
    ReassignResidentOnClock(w, replace);
    RotateKeeps(Reassign(w, replace), w.clock[0]);
  }

  lemma ReassignClockOwned(w: PagerState, replace: DiskBlock)
    requires Structural(w) && Residency(w, 0) && w.clock != []
    ensures var r := Reassign(w, replace);
      ClockOwned(r.clock, r.owner, r.status, r.sharers, w.clock[0])
  {
    HeadFrame(w);
    var h := w.clock[0];
    var tb := HeadBlock(w);
    var s1 := WriteBack(w, tb, h);
    SetPageStateStatus(s1, Evicted, tb, 0, false);
    var r := Reassign(w, replace);
    PartitionNoDup(w.freeFrames, w.clock, |w.physmem|);
    assert h in w.clock;
    assert w.status[tb].ptes.ppage == h;
    forall g | g in r.clock && g != h
      ensures g in r.owner && r.owner[g] in r.status && r.status[r.owner[g]].vptes.resident
      ensures r.status[r.owner[g]].ptes.ppage == g && Live(r.sharers, r.owner[g])
    {
      assert g in w.clock;
      assert w.status[w.owner[g]].ptes.ppage == g;
      assert w.owner[g] != tb;
      assert StatusOf(r, w.owner[g]) == StatusOf(w, w.owner[g]);
    }
  }

  lemma ReassignResidentOnClock(w: PagerState, replace: DiskBlock)
    requires Structural(w) && Residency(w, 0) && w.clock != []
    ensures var r := Reassign(w, replace);
      && ResidentOnClock(r.status, r.clock, r.owner, r.sharers)
      && forall b :: !(b in w.status && w.status[b].vptes.resident && w.status[b].ptes.ppage != 0) ==>
           StatusOf(r, b) == StatusOf(w, b)
  {
    HeadFrame(w);
    var h := w.clock[0];
    var tb := HeadBlock(w);
    var s1 := WriteBack(w, tb, h);
    SetPageStateStatus(s1, Evicted, tb, 0, false);
    var r := Reassign(w, replace);
    PartitionNoDup(w.freeFrames, w.clock, |w.physmem|);
    assert h in w.clock;
    assert w.status[tb].ptes.ppage == h;
    forall db | db in r.status && r.status[db].vptes.resident && r.status[db].ptes.ppage != 0 && Live(r.sharers, db)
      ensures r.status[db].ptes.ppage in r.clock && r.status[db].ptes.ppage in r.owner
      ensures r.owner[r.status[db].ptes.ppage] == db
    {
      assert db != tb;
      assert StatusOf(r, db) == StatusOf(w, db);
    }
  }

  // ---------------------------------------------------------------------
  // The whole allocator

  /** `Find_place_in_PM(replace)` with the write-back outcome `writeOk`:
      the new state and the frame, or None for the thrown -1. */
  ghost function FindPlaceSpec(s: PagerState, replace: DiskBlock, writeOk: bool): (PagerState, Option<nat>)
    requires Structural(s) && (s.freeFrames != [] || s.clock != [])
  {
    if s.freeFrames != [] then (TakeFree(s, replace), Some(s.freeFrames[0]))
    else Evict(Sweep(s), replace, writeOk)
  }

  /** A free frame is used first: it leaves the free queue's front, joins the
      clock's tail and is owned by `replace`; no status changes. */
  lemma FindPlaceFromFree(s: PagerState, replace: DiskBlock, writeOk: bool)
    requires Structural(s) && s.freeFrames != []
    ensures var (r, f) := FindPlaceSpec(s, replace, writeOk);
      && f == Some(s.freeFrames[0])
      && r.freeFrames == s.freeFrames[1..] && r.clock == s.clock + [f.value]
      && r.owner == s.owner[f.value := replace] && r.status == s.status
  {
  }

  /** Without a free frame the clock's contents are unchanged (a rotation);
      the victim is the first unreferenced head; a None result happens only
      for a dirty victim whose write-back failed. */
  lemma FindPlaceByEviction(s: PagerState, replace: DiskBlock, writeOk: bool)
    requires Structural(s) && s.freeFrames == [] && s.clock != []
    ensures var (r, f) := FindPlaceSpec(s, replace, writeOk);
      var w := Sweep(s);
      && multiset(r.clock) == multiset(s.clock)
      && r.freeFrames == []
      && !StatusOf(w, HeadBlock(w)).vptes.reference
      && (f.None? <==> StatusOf(w, HeadBlock(w)).vptes.dirty && !writeOk)
      && (f.Some? ==> f.value == w.clock[0] && r.owner == s.owner[f.value := replace])
      && (f.None? ==> r.owner == s.owner && r.disk == s.disk)
  {
    var w := Sweep(s);
    HeadFrame(w);
    RotateKeeps(w, 0);
    if !(StatusOf(w, HeadBlock(w)).vptes.dirty && !writeOk) {
      EvictStructural(w, replace);
    }
  }

  /** `r` keeps the bookkeeping's shape of `s` and its processes, and a
      returned frame `f` is a real frame at the clock's tail owned by `replace`. */
  ghost predicate PlaceShape(s: PagerState, r: PagerState, f: Option<nat>, replace: DiskBlock) {
    && Structural(r)
    && r.sharers == s.sharers && r.freeSwap == s.freeSwap
    && r.currentPid == s.currentPid && r.ptbr == s.ptbr
    && r.processes.Keys == s.processes.Keys
    && (forall pid :: pid in s.processes ==>
          r.processes[pid].currentPosition == s.processes[pid].currentPosition)
    && |r.physmem| == |s.physmem|
    && (f.Some? ==> 1 <= f.value < |r.physmem| && r.clock != [] && r.clock[|r.clock| - 1] == f.value
                    && f.value in r.owner && r.owner[f.value] == replace)
  }

  lemma TakeFreeShape(s: PagerState, replace: DiskBlock)
    requires Structural(s) && s.freeFrames != []
    ensures PlaceShape(s, TakeFree(s, replace), Some(s.freeFrames[0]), replace)
  {
    PartitionNoDup(s.freeFrames, s.clock, |s.physmem|);
    PartitionTakeFree(s.freeFrames, s.clock, |s.physmem|);
    assert s.freeFrames[0] in s.freeFrames;
  }

  lemma EvictHeadShape(s: PagerState, replace: DiskBlock)
    requires Structural(s) && s.clock != []
    ensures PlaceShape(s, EvictHead(s, replace), Some(s.clock[0]), replace)
  {
    HeadFrame(s);
    EvictStructural(s, replace);
    SetPageStateEntryKeepsShape(WriteBack(s, HeadBlock(s), s.clock[0]), Evicted, HeadBlock(s));
  }

  lemma EvictShape(s: PagerState, replace: DiskBlock, writeOk: bool)
    requires Structural(s) && s.clock != []
    ensures var (r, f) := Evict(Sweep(s), replace, writeOk); PlaceShape(s, r, f, replace)
  {
    var w := Sweep(s);
    HeadFrame(w);
    if StatusOf(w, HeadBlock(w)).vptes.dirty && !writeOk {
      RotateKeeps(w, 0);
    } else {
      EvictHeadShape(w, replace);
    }
  }

  /** The allocator keeps the bookkeeping's shape, and the frame it returns
      is a real frame (never frame 0) at the clock's tail, owned by `replace`. */
  lemma FindPlaceStructural(s: PagerState, replace: DiskBlock, writeOk: bool)
    requires Structural(s) && (s.freeFrames != [] || s.clock != [])
    ensures var (r, f) := FindPlaceSpec(s, replace, writeOk);
      && Structural(r)
      && r.sharers == s.sharers && r.freeSwap == s.freeSwap
      && r.currentPid == s.currentPid && r.ptbr == s.ptbr
      && r.processes.Keys == s.processes.Keys
      && (forall pid :: pid in s.processes ==>
            r.processes[pid].currentPosition == s.processes[pid].currentPosition)
      && |r.physmem| == |s.physmem|
      && (f.Some? ==> 1 <= f.value < |r.physmem| && r.clock != [] && r.clock[|r.clock| - 1] == f.value
                      && f.value in r.owner && r.owner[f.value] == replace)
  {
    if s.freeFrames != [] {
      TakeFreeShape(s, replace);
    } else {
      EvictShape(s, replace, writeOk);
    }
  }

  /** `Set_page_state` keeps every process's cursor. */
  lemma SetPageStateEntryKeepsShape(s: PagerState, st: PageState, db: DiskBlock)
    ensures var r := SetPageStateSpec(s, st, db, 0, false);
      r.processes.Keys == s.processes.Keys &&
      forall pid :: pid in s.processes ==> r.processes[pid].currentPosition == s.processes[pid].currentPosition
  {
  }

  /** Residency across the allocator: a returned frame is the one exception
      (its new owner is not resident yet); every other clock frame still
      belongs to a live block resident on it; a failed write-back leaves the
      relation whole. A block that was not resident on a real frame keeps its
      canonical status. */
  lemma FindPlaceResidency(s: PagerState, replace: DiskBlock, writeOk: bool)
    requires Coherent(s) && (s.freeFrames != [] || s.clock != [])
    ensures var (r, f) := FindPlaceSpec(s, replace, writeOk);
      && (f.Some? ==> Residency(r, f.value))
      && (f.None? ==> Residency(r, 0))
      && (forall b :: !(b in s.status && s.status[b].vptes.resident && s.status[b].ptes.ppage != 0) ==>
            StatusOf(r, b) == StatusOf(s, b))
  {
    PartitionNoDup(s.freeFrames, s.clock, |s.physmem|);
    if s.freeFrames != [] {
      var r := TakeFree(s, replace);
      var f := s.freeFrames[0];
      assert f in s.freeFrames;
      assert f !in s.clock;
      assert ClockOwned(r.clock, r.owner, r.status, r.sharers, f) by {
        forall g | g in r.clock && g != f
          ensures g in r.owner && r.owner[g] in r.status && r.status[r.owner[g]].vptes.resident
          ensures r.status[r.owner[g]].ptes.ppage == g && Live(r.sharers, r.owner[g])
        {
          assert g in s.clock;
        }
      }
      assert ResidentOnClock(r.status, r.clock, r.owner, r.sharers);
    } else {
      SweepResidency(s);
      var w := Sweep(s);
      HeadFrame(w);
      RotateKeeps(w, 0);
      if !(StatusOf(w, HeadBlock(w)).vptes.dirty && !writeOk) {
        EvictResidency(w, replace);
      }
    }
  }
}
