/**
 * `vm_fault` (Pager/vm_pager.cpp:87-134) as a specification function over
 * `PagerState`, with the storage outcomes as parameters, and the lemmas that
 * it keeps the pager's invariant and makes the faulting page accessible.
 */
module Faults {
  import opened Common
  import opened Structure
  import opened Queues
  import opened PagerState
  import opened Eviction

  /** The running process is registered and its physical table is the one
      the page-table base register points at. */
  ghost predicate Running(s: PagerState) {
    Coherent(s) && s.currentPid in s.processes && s.ptbr == Some(s.currentPid)
  }

  /** The address lies in the mapped part of the arena, the range
      Pager/vm_pager.cpp:89-90 checks. */
  predicate InArena(s: PagerState, addr: nat)
    requires s.currentPid in s.processes
  {
    ARENA_BASE <= addr < ARENA_BASE + s.processes[s.currentPid].currentPosition * PAGESIZE
  }

  /** The virtual page number of an arena address. */
  function Vpn(addr: nat): nat
    requires addr >= ARENA_BASE
  {
    (addr - ARENA_BASE) / PAGESIZE
  }

  /** The address is in the arena and its page has table entries. */
  predicate Mapped(s: PagerState, addr: nat) {
    && s.currentPid in s.processes && InArena(s, addr)
    && Vpn(addr) < |s.processes[s.currentPid].vpt| && Vpn(addr) < |s.processes[s.currentPid].ppt|
  }

  lemma VpnInRange(s: PagerState, addr: nat)
    requires Running(s) && InArena(s, addr)
    ensures Vpn(addr) < s.processes[s.currentPid].currentPosition <= ARENA_PAGES
    ensures Mapped(s, addr)
  {
    assert WfProcess(s.processes[s.currentPid], |s.physmem|);
  }

  /** The faulting page's own entries. */
  function EntryOf(s: PagerState, addr: nat): BlockStatus
    requires Mapped(s, addr)
  {
    var p := s.processes[s.currentPid];
    BlockStatus(p.ppt[Vpn(addr)], p.vpt[Vpn(addr)])
  }

  /** The fault needs a frame: the page is the pinned zero page or is not
      resident (Pager/vm_pager.cpp:98). */
  predicate NeedsFrame(e: BlockStatus) {
    Pinned(e) || !e.vptes.resident
  }

  /** What the source asserts before a fault: a copy-on-write fault is a
      write (Pager/vm_pager.cpp:111), and a frame can be found
      (Pager/vm_helper.cpp:40). */
  ghost predicate FaultAllowed(s: PagerState, addr: nat, write: bool)
    requires Running(s)
  {
    InArena(s, addr) ==> (
      VpnInRange(s, addr);
      var e := EntryOf(s, addr);
      NeedsFrame(e) ==> (e.vptes.resident ==> write) && (s.freeFrames != [] || s.clock != []))
  }

  /** What `file_read` delivers: the stored page, or zeros for a block never
      written. */
  function ReadPage(disk: map<StorageKey, Page>, db: DiskBlock): Page {
    if StorageKeyOf(db) in disk then disk[StorageKeyOf(db)] else ZeroPage()
  }

  /** The final `Set_page_state` of the fault-in path
      (Pager/vm_pager.cpp:125): readable, resident and referenced on `f`,
      writable and dirty exactly when the fault is a write. */
  function Publish(s: PagerState, db: DiskBlock, f: nat, write: bool): PagerState {
    SetPageStateSpec(s, PageState(true, write, true, true, write), db, f, true)
  }

  /** A failed `file_read` hands the frame back (Pager/vm_pager.cpp:119-120). */
  function Release(s: PagerState, f: nat): PagerState {
    s.(freeFrames := s.freeFrames + [f], clock := Without(s.clock, f))
  }

  /** `vm_fault(addr, write)` given whether a write-back and a read would
      succeed: the new state and the return value, 0 or -1. */
  ghost function FaultSpec(s: PagerState, addr: nat, write: bool, writeOk: bool, readOk: bool): (PagerState, int)
    requires Running(s) && FaultAllowed(s, addr, write)
  {
    if !InArena(s, addr) then (s, -1)
    else
      VpnInRange(s, addr);
      var e := EntryOf(s, addr);
      var db := Ident(e.vptes);
      if NeedsFrame(e) then
        var (s1, fr) := FindPlaceSpec(s, db, writeOk);
        if fr.None? then (s1, -1)
        else
          FindPlaceStructural(s, db, writeOk);
          var f := fr.value;
          if e.vptes.resident then
            (Publish(s1.(physmem := s1.physmem[f := ZeroPage()]), db, f, write), 0)
          else if !readOk then
            (Release(s1, f), -1)
          else
            (Publish(s1.(physmem := s1.physmem[f := ReadPage(s1.disk, db)]), db, f, write), 0)
      else
        var d := e.vptes.dirty || write;
        (SetPageStateSpec(s, PageState(true, d, true, true, d), db, 0, false), 0)
  }

  // ---------------------------------------------------------------------
  // Lemmas

  /** The faulting page's entries are its block's canonical ones. */
  lemma EntryAgrees(s: PagerState, addr: nat)
    requires Running(s) && InArena(s, addr)
    ensures Mapped(s, addr)
    ensures var e := EntryOf(s, addr);
      var db := Ident(e.vptes);
      && db in s.status
      && StateOf(s.status[db]) == StateOf(e) && s.status[db].ptes.ppage == e.ptes.ppage
      && IsSharer(s.sharers, db, s.currentPid, Vpn(addr))
      && Live(s.sharers, db)
  {
    VpnInRange(s, addr);
    var db := Ident(EntryOf(s, addr).vptes);
    assert IsSharer(s.sharers, db, s.currentPid, Vpn(addr));
    assert s.currentPid in s.sharers[db];
  }

  /** An address outside the mapped arena fails with no state change. */
  lemma FaultOutsideArena(s: PagerState, addr: nat, write: bool, writeOk: bool, readOk: bool)
    requires Running(s) && FaultAllowed(s, addr, write)
    requires addr < ARENA_BASE || addr >= ARENA_BASE + s.processes[s.currentPid].currentPosition * PAGESIZE
    ensures FaultSpec(s, addr, write, writeOk, readOk) == (s, -1)
  {
  }

  /** Changing flags without moving a block keeps residency, provided the new
      flags are consistent on their own: pinned exactly when resident on
      frame 0, and no access when not resident. */
  lemma RetagResidency(s: PagerState, st: PageState, db: DiskBlock, pending: nat)
    requires Structural(s) && Residency(s, pending) && db in s.status
    requires st.resident == s.status[db].vptes.resident
    requires var n := SetPageStateSpec(s, st, db, 0, false).status[db];
      (Pinned(n) <==> n.vptes.resident && n.ptes.ppage == 0)
    requires !st.resident ==> !st.read && !st.write
    ensures Residency(SetPageStateSpec(s, st, db, 0, false), pending)
  {
    SetPageStateStatus(s, st, db, 0, false);
    var r := SetPageStateSpec(s, st, db, 0, false);
    assert ZeroFrame(r.status);
    assert NoAccessWhenOut(r.status);
    assert ClockOwned(r.clock, r.owner, r.status, r.sharers, pending) by {
      forall g | g in r.clock && g != pending
        ensures g in r.owner && r.owner[g] in r.status && r.status[r.owner[g]].vptes.resident
        ensures r.status[r.owner[g]].ptes.ppage == g && Live(r.sharers, r.owner[g])
      {
        assert StatusOf(r, s.owner[g]).vptes.resident == StatusOf(s, s.owner[g]).vptes.resident;
      }
    }
    assert ResidentOnClock(r.status, r.clock, r.owner, r.sharers) by {
      forall b | b in r.status && r.status[b].vptes.resident && r.status[b].ptes.ppage != 0 && Live(r.sharers, b)
        ensures r.status[b].ptes.ppage in r.clock && r.status[b].ptes.ppage in r.owner
        ensures r.owner[r.status[b].ptes.ppage] == b
      {
        assert StatusOf(r, b).vptes.resident == StatusOf(s, b).vptes.resident;
      }
    }
  }

  /** Publishing a block on the frame the allocator reserved for it closes
      the exception: the invariant holds again. */
  lemma PublishCoherent(s: PagerState, db: DiskBlock, f: nat, write: bool)
    requires Structural(s) && Residency(s, f)
    requires 1 <= f < |s.physmem| && f in s.clock && f in s.owner && s.owner[f] == db
    requires Live(s.sharers, db)
    requires !(db in s.status && s.status[db].vptes.resident && s.status[db].ptes.ppage != 0)
    ensures Coherent(Publish(s, db, f, write))
  {
    var st := PageState(true, write, true, true, write);
    SetPageStateStructural(s, st, db, f, true);
    SetPageStateStatus(s, st, db, f, true);
    var r := Publish(s, db, f, write);
    assert ZeroFrame(r.status);
    assert NoAccessWhenOut(r.status);
    assert ClockOwned(r.clock, r.owner, r.status, r.sharers, 0) by {
      PartitionNoDup(s.freeFrames, s.clock, |s.physmem|);
      forall g | g in r.clock && g != 0
        ensures g in r.owner && r.owner[g] in r.status && r.status[r.owner[g]].vptes.resident
        ensures r.status[r.owner[g]].ptes.ppage == g && Live(r.sharers, r.owner[g])
      {
        if g != f {
          assert s.owner[g] != db;
          assert StatusOf(r, s.owner[g]) == StatusOf(s, s.owner[g]);
        }
      }
    }
    assert ResidentOnClock(r.status, r.clock, r.owner, r.sharers) by {
      forall b | b in r.status && r.status[b].vptes.resident && r.status[b].ptes.ppage != 0 && Live(r.sharers, b)
        ensures r.status[b].ptes.ppage in r.clock && r.status[b].ptes.ppage in r.owner
        ensures r.owner[r.status[b].ptes.ppage] == b
      {
        if b != db {
          assert StatusOf(r, b) == StatusOf(s, b);
        }
      }
    }
  }

  /** Handing a reserved frame back after a failed read restores the
      invariant, provided its would-be owner is not resident elsewhere. */
  lemma ReleaseCoherent(s: PagerState, db: DiskBlock, f: nat)
    requires Structural(s) && Residency(s, f)
    requires f in s.clock && f in s.owner && s.owner[f] == db
    requires !(db in s.status && s.status[db].vptes.resident)
    ensures Coherent(Release(s, f))
    ensures f in Release(s, f).freeFrames && f !in Release(s, f).clock
  {
    PartitionRelease(s.freeFrames, s.clock, |s.physmem|, f);
    var r := Release(s, f);
    assert forall g :: g in r.clock <==> g in s.clock && g != f;
    assert Structural(r);
    assert ClockOwned(r.clock, r.owner, r.status, r.sharers, 0);
    assert ResidentOnClock(r.status, r.clock, r.owner, r.sharers) by {
      forall b | b in r.status && r.status[b].vptes.resident && r.status[b].ptes.ppage != 0 && Live(r.sharers, b)
        ensures r.status[b].ptes.ppage in r.clock && r.status[b].ptes.ppage in r.owner
        ensures r.owner[r.status[b].ptes.ppage] == b
      {
        assert b != db;
      }
    }
  }

  /** Filling a reserved frame keeps the invariant's shape. */
  lemma FillFrame(s: PagerState, f: nat, page: Page, pending: nat)
    requires Structural(s) && Residency(s, pending) && 1 <= f < |s.physmem| && |page| == PAGESIZE
    ensures Structural(s.(physmem := s.physmem[f := page]))
    ensures Residency(s.(physmem := s.physmem[f := page]), pending)
  {
    var r := s.(physmem := s.physmem[f := page]);
    assert WfMemory(r.physmem, r.disk);
  }

  /** `vm_fault` keeps the pager's invariant on every path, whatever the
      storage outcomes. */
  lemma FaultCoherent(s: PagerState, addr: nat, write: bool, writeOk: bool, readOk: bool)
    requires Running(s) && FaultAllowed(s, addr, write)
    ensures Coherent(FaultSpec(s, addr, write, writeOk, readOk).0)
  {
    if InArena(s, addr) {
      VpnInRange(s, addr);
      EntryAgrees(s, addr);
      var e := EntryOf(s, addr);
      var db := Ident(e.vptes);
      if NeedsFrame(e) {
        FaultInCoherent(s, addr, write, writeOk, readOk);
      } else {
        var d := e.vptes.dirty || write;
        var st := PageState(true, d, true, true, d);
        SetPageStateStructural(s, st, db, 0, false);
        SetPageStateStatus(s, st, db, 0, false);
        RetagResidency(s, st, db, 0);
      }
    }
  }

  lemma FaultInCoherent(s: PagerState, addr: nat, write: bool, writeOk: bool, readOk: bool)
    requires Running(s) && FaultAllowed(s, addr, write) && Mapped(s, addr) && NeedsFrame(EntryOf(s, addr))
    ensures Coherent(FaultSpec(s, addr, write, writeOk, readOk).0)
  {
    EntryAgrees(s, addr);
    var e := EntryOf(s, addr);
    var db := Ident(e.vptes);
    FindPlaceStructural(s, db, writeOk);
    FindPlaceResidency(s, db, writeOk);
    var (s1, fr) := FindPlaceSpec(s, db, writeOk);
    assert !(db in s.status && s.status[db].vptes.resident && s.status[db].ptes.ppage != 0);
    if fr.Some? {
      var f := fr.value;
      assert f in s1.clock by {
        assert s1.clock[|s1.clock| - 1] == f;
      }
      assert StatusOf(s1, db) == StatusOf(s, db);
      if e.vptes.resident {
        var s2 := s1.(physmem := s1.physmem[f := ZeroPage()]);
        assert FaultSpec(s, addr, write, writeOk, readOk).0 == Publish(s2, db, f, write);
        FillFrame(s1, f, ZeroPage(), f);
        PublishCoherent(s2, db, f, write);
      } else if !readOk {
        assert FaultSpec(s, addr, write, writeOk, readOk).0 == Release(s1, f);
        ReleaseCoherent(s1, db, f);
      } else {
        var s2 := s1.(physmem := s1.physmem[f := ReadPage(s1.disk, db)]);
        assert FaultSpec(s, addr, write, writeOk, readOk).0 == Publish(s2, db, f, write);
        assert WfMemory(s1.physmem, s1.disk);
        FillFrame(s1, f, ReadPage(s1.disk, db), f);
        PublishCoherent(s2, db, f, write);
      }
    }
  }

  /** What a successful fault grants: the page becomes readable, and
      writable when the fault was a write. */
  ghost predicate Granted(r: PagerState, addr: nat, write: bool)
    requires addr >= ARENA_BASE
  {
    && r.currentPid in r.processes
    && Vpn(addr) < |r.processes[r.currentPid].ppt|
    && r.processes[r.currentPid].ppt[Vpn(addr)].readEnable
    && (write ==> r.processes[r.currentPid].ppt[Vpn(addr)].writeEnable)
  }

  /** A fault that brings the page into a frame grants access. */
  lemma FramedFaultGrants(s: PagerState, addr: nat, write: bool, writeOk: bool, readOk: bool)
    requires Running(s) && FaultAllowed(s, addr, write) && InArena(s, addr)
    requires NeedsFrame(EntryOf(s, addr)) && FaultSpec(s, addr, write, writeOk, readOk).1 == 0
    ensures Granted(FaultSpec(s, addr, write, writeOk, readOk).0, addr, write)
  {
    VpnInRange(s, addr);
    EntryAgrees(s, addr);
    var e := EntryOf(s, addr);
    var db := Ident(e.vptes);
    var v := Vpn(addr);
    var r := FaultSpec(s, addr, write, writeOk, readOk).0;
    FindPlaceStructural(s, db, writeOk);
    var (s1, fr) := FindPlaceSpec(s, db, writeOk);
    var f := fr.value;
    var page := if e.vptes.resident then ZeroPage() else ReadPage(s1.disk, db);
    var s2 := s1.(physmem := s1.physmem[f := page]);
    assert r == Publish(s2, db, f, write);
    StructuralSharersLive(s1);
    PublishGrants(s2, db, f, write, v);
  }

  /** Publishing a block's new state gives each of its sharer pages the
      access the fault asked for. */
  lemma PublishGrants(s: PagerState, db: DiskBlock, f: nat, write: bool, v: nat)
    requires SharersLive(s.sharers, s.processes) && IsSharer(s.sharers, db, s.currentPid, v)
    ensures var r := Publish(s, db, f, write);
      && r.currentPid in r.processes && v < |r.processes[r.currentPid].ppt|
      && r.processes[r.currentPid].ppt[v].readEnable
      && (write ==> r.processes[r.currentPid].ppt[v].writeEnable)
  {
    SetPageStateEntry(s, PageState(true, write, true, true, write), db, f, true, s.currentPid, v);
  }

  /** A fault on a page that needs no frame grants access. */
  lemma UpgradeFaultGrants(s: PagerState, addr: nat, write: bool, writeOk: bool, readOk: bool)
    requires Running(s) && FaultAllowed(s, addr, write) && InArena(s, addr)
    requires !NeedsFrame(EntryOf(s, addr))
    ensures Granted(FaultSpec(s, addr, write, writeOk, readOk).0, addr, write)
  {
    VpnInRange(s, addr);
    EntryAgrees(s, addr);
    var e := EntryOf(s, addr);
    var d := e.vptes.dirty || write;
    SetPageStateEntry(s, PageState(true, d, true, true, d), Ident(e.vptes), 0, false, s.currentPid, Vpn(addr));
  }

  /** A successful fault leaves the faulting page readable, and writable
      when the fault was a write; a failed one inside the arena happened
      only because a write-back or a read failed. */
  lemma FaultResolves(s: PagerState, addr: nat, write: bool, writeOk: bool, readOk: bool)
    requires Running(s) && FaultAllowed(s, addr, write)
    ensures var (r, res) := FaultSpec(s, addr, write, writeOk, readOk);
      && (res == 0 || res == -1)
      && (res == 0 <==> (Mapped(s, addr) && (
            !NeedsFrame(EntryOf(s, addr)) || (
              var fr := FindPlaceSpec(s, Ident(EntryOf(s, addr).vptes), writeOk).1;
              fr.Some? && (EntryOf(s, addr).vptes.resident || readOk)))))
      && (res == 0 ==> addr >= ARENA_BASE && Granted(r, addr, write))
  {
    if InArena(s, addr) {
      VpnInRange(s, addr);
      var res := FaultSpec(s, addr, write, writeOk, readOk).1;
      if res == 0 {
        if NeedsFrame(EntryOf(s, addr)) {
          FramedFaultGrants(s, addr, write, writeOk, readOk);
        } else {
          UpgradeFaultGrants(s, addr, write, writeOk, readOk);
        }
      }
    }
  }


  /** The fault-in path: the block's canonical entry and every sharer become
      readable, resident and referenced on the new frame, writable and dirty
      exactly when the fault is a write; the frame holds zeros on the
      copy-on-write path and the stored block otherwise. */
  lemma FaultInEffect(s: PagerState, addr: nat, write: bool, writeOk: bool, readOk: bool)
    requires Running(s) && FaultAllowed(s, addr, write) && InArena(s, addr)
    requires Mapped(s, addr) && NeedsFrame(EntryOf(s, addr))
    ensures var e := EntryOf(s, addr);
      var db := Ident(e.vptes);
      var (s1, fr) := FindPlaceSpec(s, db, writeOk);
      var (r, res) := FaultSpec(s, addr, write, writeOk, readOk);
      res == 0 ==>
        && fr.Some? && 1 <= fr.value < |r.physmem|
        && db in r.status
        && StateOf(r.status[db]) == PageState(true, write, true, true, write)
        && r.status[db].ptes.ppage == fr.value
        && (e.vptes.resident ==> write && r.physmem[fr.value] == ZeroPage())
        && (!e.vptes.resident ==> r.physmem[fr.value] == ReadPage(s1.disk, db))
  {
    var e := EntryOf(s, addr);
    var db := Ident(e.vptes);
    FindPlaceStructural(s, db, writeOk);
    var (s1, fr) := FindPlaceSpec(s, db, writeOk);
    if fr.Some? {
      var f := fr.value;
      var page := if e.vptes.resident then ZeroPage() else ReadPage(s1.disk, db);
      SetPageStateStatus(s1.(physmem := s1.physmem[f := page]), PageState(true, write, true, true, write), db, f, true);
    }
  }

  /** A failed read hands the reserved frame back: it is free again and off
      the clock, and the fault returns -1. */
  lemma FaultReadFailure(s: PagerState, addr: nat, write: bool, writeOk: bool)
    requires Running(s) && FaultAllowed(s, addr, write) && InArena(s, addr)
    requires Mapped(s, addr) && !EntryOf(s, addr).vptes.resident
    ensures var fr := FindPlaceSpec(s, Ident(EntryOf(s, addr).vptes), writeOk).1;
      var (r, res) := FaultSpec(s, addr, write, writeOk, false);
      && res == -1
      && (fr.Some? ==> fr.value in r.freeFrames && fr.value !in r.clock)
  {
    var e := EntryOf(s, addr);
    var db := Ident(e.vptes);
    EntryAgrees(s, addr);
    FindPlaceStructural(s, db, writeOk);
    FindPlaceResidency(s, db, writeOk);
    var (s1, fr) := FindPlaceSpec(s, db, writeOk);
    if fr.Some? {
      assert fr.value in s1.clock by {
        assert s1.clock[|s1.clock| - 1] == fr.value;
      }
      assert StatusOf(s1, db) == StatusOf(s, db);
      ReleaseCoherent(s1, db, fr.value);
    }
  }

  /** The resident path: dirty becomes dirty-or-write, write access follows
      it, the page is readable, resident and referenced, and the frame stays. */
  lemma FaultResidentEffect(s: PagerState, addr: nat, write: bool, writeOk: bool, readOk: bool)
    requires Running(s) && FaultAllowed(s, addr, write) && InArena(s, addr)
    requires Mapped(s, addr) && !NeedsFrame(EntryOf(s, addr))
    ensures var e := EntryOf(s, addr);
      var db := Ident(e.vptes);
      var (r, res) := FaultSpec(s, addr, write, writeOk, readOk);
      var d := e.vptes.dirty || write;
      && res == 0
      && db in r.status
      && StateOf(r.status[db]) == PageState(true, d, true, true, d)
      && r.status[db].ptes.ppage == e.ptes.ppage
      && e.ptes.ppage != 0
      && r.clock == s.clock && r.freeFrames == s.freeFrames && r.owner == s.owner
  {
    EntryAgrees(s, addr);
    var e := EntryOf(s, addr);
    var db := Ident(e.vptes);
    var d := e.vptes.dirty || write;
    SetPageStateStatus(s, PageState(true, d, true, true, d), db, 0, false);
  }

  /** A fault never changes which process runs, which processes exist, their
      arena cursors or the number of frames. */
  lemma FaultShape(s: PagerState, addr: nat, write: bool, writeOk: bool, readOk: bool)
    requires Running(s) && FaultAllowed(s, addr, write)
    ensures var r := FaultSpec(s, addr, write, writeOk, readOk).0;
      && r.currentPid == s.currentPid && r.ptbr == s.ptbr
      && r.processes.Keys == s.processes.Keys
      && (forall pid :: pid in s.processes ==> r.processes[pid].currentPosition == s.processes[pid].currentPosition)
      && |r.physmem| == |s.physmem|
  {
    if InArena(s, addr) {
      VpnInRange(s, addr);
      if NeedsFrame(EntryOf(s, addr)) {
        FaultInShape(s, addr, write, writeOk, readOk);
      }
    }
  }

  /** What a fault never changes: the running process, the set of
      processes, their arena cursors and the number of frames. */
  ghost predicate SameShape(s: PagerState, r: PagerState) {
    && r.currentPid == s.currentPid && r.ptbr == s.ptbr
    && r.processes.Keys == s.processes.Keys
    && (forall pid :: pid in s.processes ==> r.processes[pid].currentPosition == s.processes[pid].currentPosition)
    && |r.physmem| == |s.physmem|
  }

  lemma FaultInShape(s: PagerState, addr: nat, write: bool, writeOk: bool, readOk: bool)
    requires Running(s) && FaultAllowed(s, addr, write) && Mapped(s, addr) && NeedsFrame(EntryOf(s, addr))
    ensures SameShape(s, FaultSpec(s, addr, write, writeOk, readOk).0)
  {
    var e := EntryOf(s, addr);
    var db := Ident(e.vptes);
    FindPlaceStructural(s, db, writeOk);
    var (s1, fr) := FindPlaceSpec(s, db, writeOk);
    if fr.Some? {
      var f := fr.value;
      if e.vptes.resident {
        var s2 := s1.(physmem := s1.physmem[f := ZeroPage()]);
        assert FaultSpec(s, addr, write, writeOk, readOk).0 == Publish(s2, db, f, write);
        PublishShape(s, s2, db, f, write);
      } else if readOk {
        var s2 := s1.(physmem := s1.physmem[f := ReadPage(s1.disk, db)]);
        assert FaultSpec(s, addr, write, writeOk, readOk).0 == Publish(s2, db, f, write);
        PublishShape(s, s2, db, f, write);
      }
    }
  }

  lemma PublishShape(s0: PagerState, s: PagerState, db: DiskBlock, f: nat, write: bool)
    requires SameShape(s0, s)
    ensures SameShape(s0, Publish(s, db, f, write))
  {
  }

  /** The running process stays running across a fault, whatever the
      storage outcomes. */
  lemma FaultKeepsRunning(s: PagerState, addr: nat, write: bool, writeOk: bool, readOk: bool)
    requires Running(s) && FaultAllowed(s, addr, write)
    ensures Running(FaultSpec(s, addr, write, writeOk, readOk).0)
  {
    FaultCoherent(s, addr, write, writeOk, readOk);
    FaultShape(s, addr, write, writeOk, readOk);
  }

  /** The current process's table lets it read `a`, and names a frame that
      holds the page offset of `a`. */
  predicate Readable(s: PagerState, a: nat) {
    && a >= ARENA_BASE
    && s.currentPid in s.processes
    && Vpn(a) < |s.processes[s.currentPid].ppt|
    && s.processes[s.currentPid].ppt[Vpn(a)].readEnable
    && s.processes[s.currentPid].ppt[Vpn(a)].ppage < |s.physmem|
    && (a - ARENA_BASE) % PAGESIZE < |s.physmem[s.processes[s.currentPid].ppt[Vpn(a)].ppage]|
  }

  /** The character the current process reads at `a`: the byte at the page
      offset of `a` in the frame its table names. */
  function ByteAt(s: PagerState, a: nat): char
    requires Readable(s, a)
  {
    s.physmem[s.processes[s.currentPid].ppt[Vpn(a)].ppage][(a - ARENA_BASE) % PAGESIZE]
  }
}
