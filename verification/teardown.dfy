/**
 * `vm_destroy` (Pager/vm_pager.cpp:60-85) as specification functions over
 * `PagerState`: each mapped page of the current process leaves its block's
 * sharers, a swap-backed page returns its slot and, when resident on a real
 * frame, the frame; then the process is erased. The loop is a recursive
 * function with a closed-form contract; the lemmas show that the released
 * frames and slots are distinct, that the invariant survives, and that no
 * trace of the process is left.
 */
module Teardown {
  import opened Common
  import opened Structure
  import opened Queues
  import opened PagerState

  /** Page `v` holds a frame `vm_destroy` hands back: swap-backed, resident,
      not on the zero page (Pager/vm_pager.cpp:71-78). */
  predicate Rel(p: Process, v: nat)
    requires v < |p.vpt| && v < |p.ppt|
  {
    !p.vpt[v].fileBacked && p.vpt[v].resident && p.ppt[v].ppage != 0
  }

  /** The frames pages 0..k-1 hand back, in page order. */
  function Frames(p: Process, k: nat): (r: seq<nat>)
    requires k <= |p.vpt| && k <= |p.ppt|
    ensures forall x :: x in r <==> exists v :: 0 <= v < k && Rel(p, v) && p.ppt[v].ppage == x
  {
    if k == 0 then []
    else
      var r := Frames(p, k - 1) + (if Rel(p, k - 1) then [p.ppt[k - 1].ppage] else []);
      assert forall x :: x in r <==> x in Frames(p, k - 1) || (Rel(p, k - 1) && x == p.ppt[k - 1].ppage);
      r
  }

  /** The swap slots pages 0..k-1 hand back, in page order. */
  function Slots(p: Process, k: nat): (r: seq<nat>)
    requires k <= |p.vpt|
    ensures forall x :: x in r <==> exists v :: 0 <= v < k && !p.vpt[v].fileBacked && p.vpt[v].block == x
  {
    if k == 0 then []
    else
      var r := Slots(p, k - 1) + (if !p.vpt[k - 1].fileBacked then [p.vpt[k - 1].block] else []);
      assert forall x :: x in r <==> x in Slots(p, k - 1) || (!p.vpt[k - 1].fileBacked && x == p.vpt[k - 1].block);
      r
  }

  /** The blocks pages 0..k-1 alias. */
  function Blocks(p: Process, k: nat): set<DiskBlock>
    requires k <= |p.vpt|
  {
    set v | 0 <= v < k :: Ident(p.vpt[v])
  }

  /** `share_map[db]`, which `operator[]` creates empty when missing. */
  function SharersOf(sh: Sharers, db: DiskBlock): map<int, seq<nat>> {
    if db in sh then sh[db] else map[]
  }

  /** One iteration of the loop for page `i` of process `pid`, whose tables
      are `p`: `pid` leaves the block's sharers; a swap slot is pushed on the
      free list and, if the page is resident on a real frame, the frame is
      freed and taken off the clock. */
  function DestroyStep(s: PagerState, p: Process, pid: int, i: nat): (r: PagerState)
    requires i < |p.vpt| && i < |p.ppt|
    ensures r.freeSwap == s.freeSwap + if !p.vpt[i].fileBacked then [p.vpt[i].block] else []
    ensures r.freeFrames == s.freeFrames + if Rel(p, i) then [p.ppt[i].ppage] else []
    ensures r.clock == if Rel(p, i) then Without(s.clock, p.ppt[i].ppage) else s.clock
    ensures r.sharers == s.sharers[Ident(p.vpt[i]) := SharersOf(s.sharers, Ident(p.vpt[i])) - {pid}]
    ensures r.status == s.status && r.processes == s.processes && r.owner == s.owner
    ensures r.physmem == s.physmem && r.disk == s.disk && r.currentPid == s.currentPid && r.ptbr == s.ptbr
  {
    var e := p.vpt[i];
    var db := Ident(e);
    var s1 := s.(sharers := s.sharers[db := SharersOf(s.sharers, db) - {pid}]);
    if e.fileBacked then s1
    else
      var s2 := s1.(freeSwap := s1.freeSwap + [e.block]);
      var f := p.ppt[i].ppage;
      if e.resident && f != 0 then s2.(freeFrames := s2.freeFrames + [f], clock := Without(s2.clock, f))
      else s2
  }

  /** The loop over pages 0..k-1: slots and frames are appended in page
      order, the clock loses exactly the freed frames, each aliased block
      loses `pid` from its sharers, and nothing else changes. */
  function DestroyLoop(s: PagerState, p: Process, pid: int, k: nat): (r: PagerState)
    requires k <= |p.vpt| && k <= |p.ppt|
    ensures r.freeSwap == s.freeSwap + Slots(p, k)
    ensures r.freeFrames == s.freeFrames + Frames(p, k)
    ensures forall x :: multiset(r.clock)[x] == if x in Frames(p, k) then 0 else multiset(s.clock)[x]
    ensures r.status == s.status && r.processes == s.processes && r.owner == s.owner
    ensures r.physmem == s.physmem && r.disk == s.disk && r.currentPid == s.currentPid && r.ptbr == s.ptbr
  {
    if k == 0 then s
    else
      var q := DestroyLoop(s, p, pid, k - 1);
      var r := DestroyStep(q, p, pid, k - 1);
      assert Slots(p, k) == Slots(p, k - 1) + (if !p.vpt[k - 1].fileBacked then [p.vpt[k - 1].block] else []);
      var fs := Frames(p, k - 1) + (if Rel(p, k - 1) then [p.ppt[k - 1].ppage] else []);
      assert Frames(p, k) == fs;
      assert forall x :: x in fs <==> x in Frames(p, k - 1) || (Rel(p, k - 1) && x == p.ppt[k - 1].ppage);
      r
  }

  /** The sharer map after pages 0..k-1 of `pid` have left their blocks. */
  function LeaveAll(sh: Sharers, p: Process, pid: int, k: nat): Sharers
    requires k <= |p.vpt|
  {
    if k == 0 then sh
    else
      var sh1 := LeaveAll(sh, p, pid, k - 1);
      var b := Ident(p.vpt[k - 1]);
      sh1[b := SharersOf(sh1, b) - {pid}]
  }

  lemma {:induction false} LoopLeaves(s: PagerState, p: Process, pid: int, k: nat)
    requires k <= |p.vpt| && k <= |p.ppt|
    ensures DestroyLoop(s, p, pid, k).sharers == LeaveAll(s.sharers, p, pid, k)
  {
    if k > 0 {
      LoopLeaves(s, p, pid, k - 1);
      assert DestroyLoop(s, p, pid, k) == DestroyStep(DestroyLoop(s, p, pid, k - 1), p, pid, k - 1);
    }
  }

  /** Leaving pages 0..k-1 removes `pid` from exactly the blocks they alias. */
  lemma {:induction false} LeaveAllSharers(sh: Sharers, p: Process, pid: int, k: nat)
    requires k <= |p.vpt|
    ensures var r := LeaveAll(sh, p, pid, k);
      && r.Keys == sh.Keys + Blocks(p, k)
      && forall db :: SharersOf(r, db) ==
           if db in Blocks(p, k) then SharersOf(sh, db) - {pid} else SharersOf(sh, db)
  {
    if k > 0 {
      LeaveAllSharers(sh, p, pid, k - 1);
      var b := Ident(p.vpt[k - 1]);
      assert Blocks(p, k) == Blocks(p, k - 1) + {b};
      var r := LeaveAll(sh, p, pid, k);
      forall db ensures SharersOf(r, db) ==
        if db in Blocks(p, k) then SharersOf(sh, db) - {pid} else SharersOf(sh, db)
      {
        if db == b {
          var m := SharersOf(sh, db);
          assert m - {pid} - {pid} == m - {pid};
        }
      }
    }
  }

  /** After the loop over pages 0..k-1, each block they alias has lost
      `pid` from its sharers and every other block's sharers are as they
      were. */
  lemma DestroyLoopSharers(s: PagerState, p: Process, pid: int, k: nat)
    requires k <= |p.vpt| && k <= |p.ppt|
    ensures var r := DestroyLoop(s, p, pid, k);
      && r.sharers.Keys == s.sharers.Keys + Blocks(p, k)
      && forall db :: SharersOf(r.sharers, db) ==
           if db in Blocks(p, k) then SharersOf(s.sharers, db) - {pid} else SharersOf(s.sharers, db)
  {
    LoopLeaves(s, p, pid, k);
    LeaveAllSharers(s.sharers, p, pid, k);
  }

  /** `vm_destroy`: nothing to do for an unregistered process (the entry
      `operator[]` inserts is erased again); otherwise the loop over its
      mapped pages, then its tables are erased. The physical table read is
      the one the base register points at, the current process's. Erasing
      the tables leaves the base register pointing at freed storage; the
      model records that as "no table loaded" (None), so nothing that needs
      a running process can use it until `vm_switch` loads another table. */
  function DestroySpec(s: PagerState): PagerState
    requires s.currentPid in s.processes ==>
      var p := s.processes[s.currentPid];
      p.currentPosition <= |p.vpt| && p.currentPosition <= |p.ppt|
  {
    if s.currentPid !in s.processes then s
    else
      var p := s.processes[s.currentPid];
      var r := DestroyLoop(s, p, s.currentPid, p.currentPosition);
      r.(processes := r.processes - {s.currentPid}, ptbr := None)
  }

  // ---------------------------------------------------------------------
  // What the invariant says about the dying process

  /** The process being destroyed is registered and the invariant holds. */
  ghost predicate Dying(s: PagerState) {
    Coherent(s) && s.currentPid in s.processes
  }

  /** A page that hands back a frame is the sole sharer of a swap slot
      resident on that frame, which is on the clock and owned by the slot. */
  lemma ReleasedOnClock(s: PagerState, v: nat)
    requires Dying(s)
    requires v < s.processes[s.currentPid].currentPosition
    ensures var p := s.processes[s.currentPid];
      v < |p.vpt| && v < |p.ppt| &&
      (Rel(p, v) ==>
        var db := Ident(p.vpt[v]);
        && db.filename == ""
        && IsSharer(s.sharers, db, s.currentPid, v)
        && db in s.status && s.status[db].vptes.resident && s.status[db].ptes.ppage == p.ppt[v].ppage
        && p.ppt[v].ppage in s.clock && p.ppt[v].ppage in s.owner && s.owner[p.ppt[v].ppage] == db)
  {
    var pid := s.currentPid;
    var p := s.processes[pid];
    assert WfProcess(p, |s.physmem|);
    if Rel(p, v) {
      var db := Ident(p.vpt[v]);
      assert IsSharer(s.sharers, db, pid, v);
      assert Agrees(s.status[db], p.vpt[v], p.ppt[v]);
      assert Live(s.sharers, db) by {
        assert pid in s.sharers[db];
      }
    }
  }

  /** Two swap-backed pages of the dying process never share a slot, and no
      slot it uses is on the free list. */
  lemma SlotsDistinct(s: PagerState, v1: nat, v2: nat)
    requires Dying(s)
    requires v1 < s.processes[s.currentPid].currentPosition && v2 < s.processes[s.currentPid].currentPosition
    ensures var p := s.processes[s.currentPid];
      && v1 < |p.vpt| && v2 < |p.vpt|
      && (!p.vpt[v1].fileBacked ==> p.vpt[v1].block !in s.freeSwap)
      && (!p.vpt[v1].fileBacked && !p.vpt[v2].fileBacked && p.vpt[v1].block == p.vpt[v2].block ==> v1 == v2)
  {
    var pid := s.currentPid;
    var p := s.processes[pid];
    assert WfProcess(p, |s.physmem|);
    assert IsSharer(s.sharers, Ident(p.vpt[v1]), pid, v1);
    assert IsSharer(s.sharers, Ident(p.vpt[v2]), pid, v2);
    if !p.vpt[v1].fileBacked && !p.vpt[v2].fileBacked && p.vpt[v1].block == p.vpt[v2].block {
      var db := Ident(p.vpt[v1]);
      var l := s.sharers[db][pid];
      assert |l| == 1 && v1 in l && v2 in l;
    }
  }

  /** Two pages of the dying process never hand back the same frame. */
  lemma FramesDistinct(s: PagerState, v1: nat, v2: nat)
    requires Dying(s)
    requires v1 < s.processes[s.currentPid].currentPosition && v2 < s.processes[s.currentPid].currentPosition
    ensures var p := s.processes[s.currentPid];
      v1 < |p.vpt| && v1 < |p.ppt| && v2 < |p.vpt| && v2 < |p.ppt| &&
      (Rel(p, v1) && Rel(p, v2) && p.ppt[v1].ppage == p.ppt[v2].ppage ==> v1 == v2)
  {
    var p := s.processes[s.currentPid];
    ReleasedOnClock(s, v1);
    ReleasedOnClock(s, v2);
    SlotsDistinct(s, v1, v2);
  }

  lemma {:induction false} FramesNoDup(s: PagerState, k: nat)
    requires Dying(s) && k <= s.processes[s.currentPid].currentPosition
    ensures var p := s.processes[s.currentPid];
      k <= |p.vpt| && k <= |p.ppt| && NoDup(Frames(p, k))
  {
    var p := s.processes[s.currentPid];
    assert WfProcess(p, |s.physmem|);
    if k > 0 {
      FramesNoDup(s, k - 1);
      var f0 := Frames(p, k - 1);
      if Rel(p, k - 1) {
        var f := p.ppt[k - 1].ppage;
        assert f !in f0 by {
          forall v | 0 <= v < k - 1 && Rel(p, v) ensures p.ppt[v].ppage != f {
            FramesDistinct(s, v, k - 1);
          }
        }
        NoDupAppend(f0, f);
      } else {
        assert Frames(p, k) == f0;
      }
    }
  }

  /** The first n pages' swap slots are pairwise distinct and none of them
      is in `free`. */
  ghost predicate SlotsApart(p: Process, free: seq<nat>, n: nat)
    requires n <= |p.vpt|
  {
    forall v1, v2 :: 0 <= v1 < n && 0 <= v2 < n && !p.vpt[v1].fileBacked && !p.vpt[v2].fileBacked ==>
      p.vpt[v1].block !in free && (p.vpt[v1].block == p.vpt[v2].block ==> v1 == v2)
  }

  lemma DyingSlotsApart(s: PagerState)
    requires Dying(s)
    ensures var p := s.processes[s.currentPid];
      p.currentPosition <= |p.vpt| && SlotsApart(p, s.freeSwap, p.currentPosition)
      && NoDup(s.freeSwap)
  {
    var p := s.processes[s.currentPid];
    assert WfProcess(p, |s.physmem|);
    forall v1, v2 | 0 <= v1 < p.currentPosition && 0 <= v2 < p.currentPosition && !p.vpt[v1].fileBacked && !p.vpt[v2].fileBacked
      ensures p.vpt[v1].block !in s.freeSwap && (p.vpt[v1].block == p.vpt[v2].block ==> v1 == v2)
    {
      SlotsDistinct(s, v1, v2);
    }
  }

  /** The slot of each swap-backed page among the first n is neither free
      nor the slot of an earlier page. */
  ghost predicate SlotsFresh(p: Process, free: seq<nat>, n: nat)
    requires n <= |p.vpt|
  {
    forall k {:trigger Slots(p, k)} :: 0 <= k < n && !p.vpt[k].fileBacked ==> p.vpt[k].block !in free + Slots(p, k)
  }

  lemma ApartIsFresh(p: Process, free: seq<nat>, n: nat)
    requires n <= |p.vpt| && SlotsApart(p, free, n)
    ensures SlotsFresh(p, free, n)
  {
    forall k | 0 <= k < n && !p.vpt[k].fileBacked ensures p.vpt[k].block !in free + Slots(p, k) {
      var b := p.vpt[k].block;
      forall v | 0 <= v < k && !p.vpt[v].fileBacked ensures p.vpt[v].block != b {
      }
    }
  }

  /** The slot of page k - 1 extends a duplicate-free list of slots. */
  lemma SlotsNoDupStep(p: Process, free: seq<nat>, k: nat)
    requires 0 < k <= |p.vpt| && NoDup(free + Slots(p, k - 1))
    requires !p.vpt[k - 1].fileBacked ==> p.vpt[k - 1].block !in free + Slots(p, k - 1)
    ensures NoDup(free + Slots(p, k))
  {
    var f0 := free + Slots(p, k - 1);
    if !p.vpt[k - 1].fileBacked {
      NoDupAppend(f0, p.vpt[k - 1].block);
      assert free + Slots(p, k) == f0 + [p.vpt[k - 1].block];
    } else {
      assert free + Slots(p, k) == f0;
    }
  }

  lemma {:induction false} SlotsNoDup(p: Process, free: seq<nat>, k: nat)
    requires k <= |p.vpt| && NoDup(free) && SlotsFresh(p, free, k)
    ensures NoDup(free + Slots(p, k))
  {
    if k == 0 {
      assert free + Slots(p, 0) == free;
    } else {
      SlotsNoDup(p, free, k - 1);
      SlotsNoDupStep(p, free, k);
    }
  }

  // ---------------------------------------------------------------------
  // Effect and invariant

  /** The state after the loop, before the process is erased. */
  function Swept(s: PagerState): PagerState
    requires Dying(s)
  {
    var p := s.processes[s.currentPid];
    assert WfProcess(p, |s.physmem|);
    DestroyLoop(s, p, s.currentPid, p.currentPosition)
  }

  /** After `vm_destroy` no block lists the process; every other process's
      sharer lists are as they were. */
  lemma DestroySharers(s: PagerState)
    requires Dying(s)
    ensures var pid, r := s.currentPid, DestroySpec(s);
      && r.sharers.Keys >= s.sharers.Keys
      && (forall db, q :: q in SharersOf(r.sharers, db) <==> (q != pid && q in SharersOf(s.sharers, db)))
      && forall db, q :: q in SharersOf(r.sharers, db) ==> SharersOf(r.sharers, db)[q] == SharersOf(s.sharers, db)[q]
  {
    var pid := s.currentPid;
    var p := s.processes[pid];
    assert WfProcess(p, |s.physmem|);
    var k := p.currentPosition;
    DestroyLoopSharers(s, p, pid, k);
    forall db | pid in SharersOf(s.sharers, db) ensures db in Blocks(p, k) {
      var l := s.sharers[db][pid];
      assert l != [];
      assert IsSharer(s.sharers, db, pid, l[0]);
    }
    SharersDropped(s.sharers, DestroySpec(s).sharers, pid, Blocks(p, k));
  }

  /** Taking `pid` out of the sharers of every block it shares (and maybe
      others) leaves exactly the other sharers, with their pages. */
  lemma SharersDropped(sh: Sharers, r: Sharers, pid: int, touched: set<DiskBlock>)
    requires r.Keys == sh.Keys + touched
    requires forall db :: SharersOf(r, db) == if db in touched then SharersOf(sh, db) - {pid} else SharersOf(sh, db)
    requires forall db :: pid in SharersOf(sh, db) ==> db in touched
    ensures r.Keys >= sh.Keys
    ensures forall db, q :: q in SharersOf(r, db) <==> (q != pid && q in SharersOf(sh, db))
    ensures forall db, q :: q in SharersOf(r, db) ==> SharersOf(r, db)[q] == SharersOf(sh, db)[q]
  {
  }

  /** `vm_destroy` erases the process and its sharer entries, hands back
      its slots and frames, and leaves statuses, owners, memory and storage
      alone. */
  lemma DestroyFields(s: PagerState)
    requires Dying(s)
    ensures var r, pid := DestroySpec(s), s.currentPid;
      var p := s.processes[pid];
      && p.currentPosition <= |p.vpt| && p.currentPosition <= |p.ppt|
      && r.processes == s.processes - {pid}
      && r.freeSwap == s.freeSwap + Slots(p, p.currentPosition)
      && r.freeFrames == s.freeFrames + Frames(p, p.currentPosition)
      && r.status == s.status && r.owner == s.owner && r.physmem == s.physmem && r.disk == s.disk
      && r.currentPid == s.currentPid && r.ptbr == None
  {
    assert WfProcess(s.processes[s.currentPid], |s.physmem|);
  }

  /** The released frames go from the clock to the free list: the frame
      partition survives, and the clock only loses frames. */
  lemma DestroyFrames(s: PagerState)
    requires Dying(s)
    ensures var r, p := DestroySpec(s), s.processes[s.currentPid];
      && p.currentPosition <= |p.vpt| && p.currentPosition <= |p.ppt|
      && NoDup(Frames(p, p.currentPosition))
      && (forall x :: x in Frames(p, p.currentPosition) ==> x in s.clock)
      && Partition(r.freeFrames, r.clock, |r.physmem|)
      && (forall x :: x in r.clock <==> x in s.clock && x !in Frames(p, p.currentPosition))
  {
    var p := s.processes[s.currentPid];
    DestroyFields(s);
    var k := p.currentPosition;
    var F: seq<nat> := Frames(p, k);
    FramesNoDup(s, k);
    forall x | x in F ensures x in s.clock {
      var v :| 0 <= v < k && Rel(p, v) && p.ppt[v].ppage == x;
      ReleasedOnClock(s, v);
    }
    PartitionReleaseAll(s.freeFrames, s.clock, |s.physmem|, F, DestroySpec(s).clock);
  }

  /** The released swap slots are distinct and were in use, so the free
      swap list stays duplicate-free and a slot in use is still not free. */
  lemma DestroySlots(s: PagerState)
    requires Dying(s)
    ensures SwapSlots(DestroySpec(s).sharers, DestroySpec(s).freeSwap)
  {
    var pid := s.currentPid;
    var p := s.processes[pid];
    DestroyFields(s);
    var k := p.currentPosition;
    var r := DestroySpec(s);
    DyingSlotsApart(s);
    ApartIsFresh(p, s.freeSwap, k);
    SlotsNoDup(p, s.freeSwap, k);
    DestroySharers(s);
    forall db, p1, p2 | db in r.sharers && db.filename == "" && p1 in r.sharers[db] && p2 in r.sharers[db]
      ensures p1 == p2 && |r.sharers[db][p1]| == 1 && db.block !in r.freeSwap
    {
      assert p1 in SharersOf(r.sharers, db) && p2 in SharersOf(r.sharers, db);
      assert db in s.sharers && p1 in s.sharers[db] && p2 in s.sharers[db];
      SlotsUnused(s, db, p1);
    }
  }

  /** A swap slot another process still maps is none of the dying
      process's slots. */
  lemma SlotsUnused(s: PagerState, db: DiskBlock, q: int)
    requires Dying(s) && db.filename == "" && db in s.sharers && q in s.sharers[db] && q != s.currentPid
    ensures var p := s.processes[s.currentPid];
      p.currentPosition <= |p.vpt| && db.block !in Slots(p, p.currentPosition)
  {
    var pid := s.currentPid;
    var p := s.processes[pid];
    assert WfProcess(p, |s.physmem|);
    forall v | 0 <= v < p.currentPosition && !p.vpt[v].fileBacked ensures p.vpt[v].block != db.block {
      assert IsSharer(s.sharers, Ident(p.vpt[v]), pid, v);
    }
  }

  /** Sharer entries after `vm_destroy` are entries of other processes that
      were there before. */
  lemma DestroySharerEntries(s: PagerState)
    requires Dying(s)
    ensures var r := DestroySpec(s);
      && (forall db, q, v: nat :: IsSharer(r.sharers, db, q, v) ==> q != s.currentPid && IsSharer(s.sharers, db, q, v))
      && (forall db, q, v: nat :: q != s.currentPid && IsSharer(s.sharers, db, q, v) ==> IsSharer(r.sharers, db, q, v))
      && (forall db, q :: db in r.sharers && q in r.sharers[db] ==> r.sharers[db][q] != [])
  {
    var r := DestroySpec(s);
    DestroySharers(s);
    forall db, q, v: nat | IsSharer(r.sharers, db, q, v)
      ensures q != s.currentPid && IsSharer(s.sharers, db, q, v)
    {
      assert q in SharersOf(r.sharers, db);
    }
    forall db, q, v: nat | q != s.currentPid && IsSharer(s.sharers, db, q, v)
      ensures IsSharer(r.sharers, db, q, v)
    {
      assert q in SharersOf(s.sharers, db);
    }
    forall db, q | db in r.sharers && q in r.sharers[db] ensures r.sharers[db][q] != [] {
      assert q in SharersOf(r.sharers, db);
    }
  }

  /** Dropping a process together with exactly its sharer entries keeps the
      sharer invariants. */
  lemma SharersWithout(sh: Sharers, sh': Sharers, status: Statuses, procs: Processes, pid: int)
    requires WfSharers(sh, procs) && SharersAgree(sh, status, procs) && AllMapped(sh, procs)
    requires forall db, q, v: nat :: IsSharer(sh', db, q, v) ==> q != pid && IsSharer(sh, db, q, v)
    requires forall db, q, v: nat :: q != pid && IsSharer(sh, db, q, v) ==> IsSharer(sh', db, q, v)
    requires forall db, q :: db in sh' && q in sh'[db] ==> sh'[db][q] != []
    ensures WfSharers(sh', procs - {pid})
    ensures SharersAgree(sh', status, procs - {pid})
    ensures AllMapped(sh', procs - {pid})
  {
  }

  lemma DestroyShape(s: PagerState)
    requires Dying(s)
    ensures Structural(DestroySpec(s))
  {
    DestroyFields(s);
    DestroyFrames(s);
    DestroySlots(s);
    DestroySharerEntries(s);
    var r := DestroySpec(s);
    SharersWithout(s.sharers, r.sharers, s.status, s.processes, s.currentPid);
  }

  /** A clock frame that survives `vm_destroy` keeps a live owner. */
  lemma DestroyClockOwned(s: PagerState)
    requires Dying(s)
    ensures var r := DestroySpec(s); ClockOwned(r.clock, r.owner, r.status, r.sharers, 0)
  {
    DestroyFields(s);
    DestroyFrames(s);
    var r := DestroySpec(s);
    forall f | f in r.clock ensures Live(r.sharers, s.owner[f]) {
      OwnerStaysLive(s, f);
    }
  }

  lemma OwnerStaysLive(s: PagerState, f: nat)
    requires Dying(s)
    requires var p := s.processes[s.currentPid];
      p.currentPosition <= |p.vpt| && p.currentPosition <= |p.ppt| &&
      f in s.clock && f !in Frames(p, p.currentPosition)
    ensures f in s.owner && Live(DestroySpec(s).sharers, s.owner[f])
  {
    var pid := s.currentPid;
    PartitionNoDup(s.freeFrames, s.clock, |s.physmem|);
    var db := s.owner[f];
    assert f != 0 && Live(s.sharers, db);
    if db.filename == "" {
      SomeSharer(s.sharers, db);
      var q :| q in s.sharers[db];
      if q == pid {
        SoleSharerReleases(s, db);
      } else {
        SharerSurvives(s, db, q);
      }
    }
  }

  /** Another process's sharer entry survives `vm_destroy`. */
  lemma SharerSurvives(s: PagerState, db: DiskBlock, q: int)
    requires Dying(s) && q != s.currentPid && db in s.sharers && q in s.sharers[db]
    ensures db in DestroySpec(s).sharers && q in DestroySpec(s).sharers[db]
  {
    var p := s.processes[s.currentPid];
    assert WfProcess(p, |s.physmem|);
    DestroyLoopSharers(s, p, s.currentPid, p.currentPosition);
    assert q in SharersOf(DestroySpec(s).sharers, db);
  }

  /** A swap slot the dying process maps, resident on a real frame, is
      released. */
  lemma SoleSharerReleases(s: PagerState, db: DiskBlock)
    requires Dying(s) && db.filename == "" && db in s.sharers && s.currentPid in s.sharers[db]
    requires db in s.status && s.status[db].vptes.resident && s.status[db].ptes.ppage != 0
    ensures var p := s.processes[s.currentPid];
      p.currentPosition <= |p.vpt| && p.currentPosition <= |p.ppt|
      && s.status[db].ptes.ppage in Frames(p, p.currentPosition)
  {
    var pid := s.currentPid;
    var p := s.processes[pid];
    assert WfProcess(p, |s.physmem|);
    var v := s.sharers[db][pid][0];
    assert IsSharer(s.sharers, db, pid, v);
    assert Agrees(s.status[db], p.vpt[v], p.ppt[v]);
    assert Rel(p, v);
  }

  /** A block still live after `vm_destroy` and resident on a real frame is
      still on the clock. */
  lemma DestroyResidentOnClock(s: PagerState)
    requires Dying(s)
    ensures var r := DestroySpec(s); ResidentOnClock(r.status, r.clock, r.owner, r.sharers)
  {
    DestroyFields(s);
    DestroyFrames(s);
    var r := DestroySpec(s);
    forall db | db in r.status && r.status[db].vptes.resident && r.status[db].ptes.ppage != 0 && Live(r.sharers, db)
      ensures r.status[db].ptes.ppage in r.clock && r.status[db].ptes.ppage in r.owner
      ensures r.owner[r.status[db].ptes.ppage] == db
    {
      ResidentStaysOnClock(s, db);
    }
  }

  lemma ResidentStaysOnClock(s: PagerState, db: DiskBlock)
    requires Dying(s)
    requires db in s.status && s.status[db].vptes.resident && s.status[db].ptes.ppage != 0
    requires Live(DestroySpec(s).sharers, db)
    ensures var p := s.processes[s.currentPid];
      p.currentPosition <= |p.vpt| && p.currentPosition <= |p.ppt|
      && s.status[db].ptes.ppage in s.clock && s.status[db].ptes.ppage !in Frames(p, p.currentPosition)
      && s.status[db].ptes.ppage in s.owner && s.owner[s.status[db].ptes.ppage] == db
  {
    var pid := s.currentPid;
    var p := s.processes[pid];
    assert WfProcess(p, |s.physmem|);
    var r := DestroySpec(s);
    DestroySharers(s);
    var q: int;
    if db.filename == "" {
      SomeSharer(r.sharers, db);
      q :| q in r.sharers[db];
      assert q in SharersOf(r.sharers, db);
    }
    assert Live(s.sharers, db);
    var f := s.status[db].ptes.ppage;
    if f in Frames(p, p.currentPosition) {
      var v :| 0 <= v < p.currentPosition && Rel(p, v) && p.ppt[v].ppage == f;
      ReleasedOnClock(s, v);
    }
  }

  /** `vm_destroy` keeps the pager's invariant. */
  lemma DestroyCoherent(s: PagerState)
    requires Coherent(s)
    ensures Coherent(DestroySpec(s))
  {
    if s.currentPid in s.processes {
      DestroyShape(s);
      DestroyFields(s);
      DestroyClockOwned(s);
      DestroyResidentOnClock(s);
    }
  }

  // ---------------------------------------------------------------------
  // What each iteration of the loop may rely on

  /** The frames of the first i pages are a prefix of those of the first k. */
  lemma {:induction false} FramesPrefix(p: Process, i: nat, k: nat)
    requires i <= k <= |p.vpt| && k <= |p.ppt|
    ensures |Frames(p, i)| <= |Frames(p, k)| && Frames(p, k)[..|Frames(p, i)|] == Frames(p, i)
    decreases k - i
  {
    if i < k {
      FramesPrefix(p, i + 1, k);
      var a, b := Frames(p, i), Frames(p, i + 1);
      assert b[..|a|] == a;
      assert Frames(p, k)[..|a|] == b[..|b|][..|a|];
    }
  }

  /** When page i hands back its frame, that frame is still on the clock,
      which is non-empty and duplicate-free: `RemoveFromClockQueue` may be
      called on it. */
  lemma DestroyReady(s: PagerState, p: Process, pid: int, i: nat, k: nat)
    requires i < k <= |p.vpt| && k <= |p.ppt| && Rel(p, i)
    requires NoDup(s.clock) && NoDup(Frames(p, k))
    requires forall x :: x in Frames(p, k) ==> x in s.clock
    ensures var c := DestroyLoop(s, p, pid, i).clock;
      c != [] && NoDup(c) && p.ppt[i].ppage in c
  {
    var f := p.ppt[i].ppage;
    var a := Frames(p, i);
    FramesPrefix(p, i + 1, k);
    var F := Frames(p, k);
    assert Frames(p, i + 1) == a + [f];
    assert F == (a + [f]) + F[|a| + 1..] by {
      assert F[..|a| + 1] == a + [f];
    }
    assert multiset(F)[f] == multiset(a)[f] + 1 + multiset(F[|a| + 1..])[f];
    assert f !in a;
    assert f in F;
    var c: seq<nat> := DestroyLoop(s, p, pid, i).clock;
    assert multiset(c)[f] == multiset(s.clock)[f];
    assert f in c;
    assert forall x: nat :: multiset(c)[x] <= multiset(s.clock)[x];
  }
}
