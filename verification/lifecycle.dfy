/**
 * `vm_init`, `vm_create` and `vm_switch` (Pager/vm_pager.cpp:23-58) as
 * specification functions over `PagerState`, with the lemmas that the
 * initial state satisfies the pager invariant, that registering a new
 * process keeps it, and that switching makes the target the running
 * process.
 */
module Lifecycle {
  import opened Common
  import opened Structure
  import opened Queues
  import opened PagerState
  import opened Faults
  import opened Teardown

  /** The state `vm_init(memoryPages, swapBlocks)` leaves, given the
      physical memory `mem` and storage `disk` it finds: frames
      1..memoryPages-1 and slots 0..swapBlocks-1 free in increasing order,
      frame 0 zeroed, no process, nothing mapped, no process running. */
  function InitSpec(memoryPages: nat, swapBlocks: nat, mem: seq<Page>, disk: map<StorageKey, Page>): PagerState
    requires |mem| == memoryPages >= 1
  {
    PagerState(0, None, map[], map[], map[], map[], Range(0, swapBlocks), Range(1, memoryPages), [],
      mem[0 := ZeroPage()], disk)
  }

  /** After `vm_init` every frame but the zero frame is free exactly once,
      every swap slot is free exactly once, and the pager invariant holds
      as soon as every page of memory and storage has the page size. */
  lemma InitCoherent(memoryPages: nat, swapBlocks: nat, mem: seq<Page>, disk: map<StorageKey, Page>)
    requires |mem| == memoryPages >= 1
    requires forall f :: 0 <= f < |mem| ==> |mem[f]| == PAGESIZE
    requires forall k :: k in disk ==> |disk[k]| == PAGESIZE
    ensures var s := InitSpec(memoryPages, swapBlocks, mem, disk);
      && Coherent(s)
      && (forall f :: f in s.freeFrames <==> 1 <= f < memoryPages)
      && (forall b: nat :: b in s.freeSwap <==> b < swapBlocks)
      && NoDup(s.freeSwap) && NoDup(s.freeFrames)
      && s.physmem[0] == ZeroPage()
  {
    var s := InitSpec(memoryPages, swapBlocks, mem, disk);
    PartitionInit(memoryPages);
    PartitionNoDup(s.freeFrames, s.clock, memoryPages);
    forall x: nat ensures multiset(s.freeSwap)[x] <= 1 {
      RangeCount(0, swapBlocks, x);
    }
    assert forall b: nat :: b in s.freeSwap <==> b < swapBlocks by {
      forall b: nat ensures b in s.freeSwap <==> b < swapBlocks {
        RangeCount(0, swapBlocks, b);
      }
    }
    assert forall f :: f in s.freeFrames <==> 1 <= f < memoryPages by {
      forall f: nat ensures f in s.freeFrames <==> 1 <= f < memoryPages {
        RangeCount(1, memoryPages, f);
      }
    }
    assert WfMemory(s.physmem, s.disk);
    assert Structural(s);
    assert Residency(s, 0);
  }

  /** The state after `vm_create(parent, child)`: `child` is registered with
      cleared tables and an empty arena; `parent` plays no part. */
  function CreateSpec(s: PagerState, child: int): PagerState {
    s.(processes := s.processes[child := FreshProcess()])
  }

  /** Registering a process that does not exist yet keeps the pager
      invariant, leaves every other process as it was, and gives the new
      one an empty arena with no access to any page. */
  lemma CreateCoherent(s: PagerState, child: int)
    requires Coherent(s) && child !in s.processes
    ensures var r := CreateSpec(s, child);
      && Coherent(r)
      && r.processes.Keys == s.processes.Keys + {child}
      && (forall pid :: pid in s.processes ==> r.processes[pid] == s.processes[pid])
      && r.processes[child].currentPosition == 0
      && (forall i :: 0 <= i < ARENA_PAGES ==>
            !r.processes[child].ppt[i].readEnable && !r.processes[child].ppt[i].writeEnable)
  {
    var r := CreateSpec(s, child);
    assert WfProcess(FreshProcess(), |s.physmem|);
    assert WfSharers(r.sharers, r.processes);
    assert AllMapped(r.sharers, r.processes);
    assert SharersAgree(r.sharers, r.status, r.processes);
  }

  /** The state after `vm_switch(pid)`: switching to the current process
      does nothing; otherwise `pid` becomes current and the page-table base
      register points at its table. */
  function SwitchSpec(s: PagerState, pid: int): PagerState {
    if pid == s.currentPid then s else s.(currentPid := pid, ptbr := Some(pid))
  }

  /** Switching to a registered process makes it the running process, and
      nothing but the two registers changes; a switch to the process that
      is already current keeps the register as it was, so it leaves the
      process running only when it already was. */
  lemma SwitchRunning(s: PagerState, pid: int)
    requires Coherent(s) && pid in s.processes
    ensures var r := SwitchSpec(s, pid);
      && r.currentPid == pid
      && (Running(r) <==> pid != s.currentPid || s.ptbr == Some(pid))
      && r == s.(currentPid := r.currentPid, ptbr := r.ptbr)
  {
  }

  /** Right after `vm_init` the current pid is 0 and no table is loaded:
      a first switch to process 0 returns early and leaves it not running. */
  lemma SwitchToFirstZero(memoryPages: nat, swapBlocks: nat, mem: seq<Page>, disk: map<StorageKey, Page>)
    requires |mem| == memoryPages >= 1
    ensures var s := CreateSpec(InitSpec(memoryPages, swapBlocks, mem, disk), 0);
      && 0 in s.processes
      && SwitchSpec(s, 0).ptbr == None
      && !Running(SwitchSpec(s, 0))
  {
  }

  /** After `vm_destroy` the base register no longer names a table: the
      destroyed pid, even recreated, does not run again through the early
      return of `vm_switch`, while a switch to any other registered process
      loads its table and runs it. */
  lemma DestroyThenSwitch(s: PagerState, pid: int)
    requires Coherent(s) && s.currentPid in s.processes
    ensures var d := DestroySpec(s);
      && !Running(d)
      && !Running(SwitchSpec(CreateSpec(d, s.currentPid), s.currentPid))
      && (pid in d.processes ==> pid != s.currentPid && Running(SwitchSpec(d, pid)))
  {
    DestroyFields(s);
    DestroyCoherent(s);
  }
}
