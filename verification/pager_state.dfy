/**
 * The pager's global state (Pager/vm_pager.cpp:14-21) as one value, the
 * effect of `Set_page_state` on it, and the invariants every entry point
 * keeps. The class in pager.dfy holds the same fields and projects them to
 * this value with `Snapshot()`.
 */
module PagerState {
  import opened Common
  import opened Structure
  import opened Queues

  /** What `file_read`/`file_write` are called with: the name pointer
      `FilenameToChar` produces (None is nullptr, the swap file) and the block. */
  type StorageKey = (Option<string>, nat)

  /** `FilenameToChar` (Pager/vm_helper.cpp:122-130): the empty name is the
      null pointer, which names the swap file. */
  function FilenameToChar(name: string): (r: Option<string>)
    ensures r.None? <==> name == ""
    ensures r.Some? ==> r.value == name
  {
    if name == "" then None else Some(name)
  }

  /** Where a backing block lives in storage. */
  function StorageKeyOf(db: DiskBlock): StorageKey {
    (FilenameToChar(db.filename), db.block)
  }

  /** Distinct backing blocks never share a storage location; swap slots
      (filename "") are exactly the keys with a null name. */
  lemma StorageKeyInjective(a: DiskBlock, b: DiskBlock)
    ensures StorageKeyOf(a) == StorageKeyOf(b) ==> a == b
    ensures StorageKeyOf(a).0.None? <==> a.filename == ""
  {
    if StorageKeyOf(a) == StorageKeyOf(b) && a.filename != "" {
      assert FilenameToChar(a.filename).value == FilenameToChar(b.filename).value;
    }
  }

  /**
   * The globals of Pager/vm_pager.cpp. `ptbr` is the process whose physical
   * table `page_table_base_register` points at (None before the first switch).
   * `physmem` holds one page per physical frame; `disk` is the storage behind
   * `file_read`/`file_write`.
   */
  datatype PagerState = PagerState(
    currentPid: int,
    ptbr: Option<int>,
    processes: map<int, Process>,
    owner: map<nat, DiskBlock>,
    sharers: map<DiskBlock, map<int, seq<nat>>>,
    status: map<DiskBlock, BlockStatus>,
    freeSwap: seq<nat>,
    freeFrames: seq<nat>,
    clock: seq<nat>,
    physmem: seq<Page>,
    disk: map<StorageKey, Page>)

  type Processes = map<int, Process>
  type Sharers = map<DiskBlock, map<int, seq<nat>>>
  type Statuses = map<DiskBlock, BlockStatus>

  /** `block_status_map[db]`, which value-initialises a missing entry. */
  function StatusOf(s: PagerState, db: DiskBlock): BlockStatus {
    if db in s.status then s.status[db] else DefaultStatus()
  }

  /** (pid, vpn) is listed in `share_map[db]`. */
  predicate IsSharer(sh: Sharers, db: DiskBlock, pid: int, v: nat) {
    db in sh && pid in sh[db] && v in sh[db][pid]
  }

  /** Some process maps `db`. */
  predicate Shared(sh: Sharers, db: DiskBlock) {
    db in sh && sh[db] != map[]
  }

  /** A shared block names at least one sharing process. */
  lemma SomeSharer(sh: Sharers, db: DiskBlock)
    requires Shared(sh, db)
    ensures exists q :: q in sh[db]
  {
    if forall q :: q !in sh[db] {
      assert false;
    }
  }

  /** Every sharer names a live process and a slot of its tables. */
  ghost predicate SharersLive(sh: Sharers, procs: Processes) {
    forall db, pid, v: nat :: IsSharer(sh, db, pid, v) ==>
      pid in procs && v < |procs[pid].vpt| && v < |procs[pid].ppt|
  }

  // ---------------------------------------------------------------------
  // Set_page_state

  /** One process's tables after `Set_state` on each listed page. */
  function ApplyTo(p: Process, vpns: seq<nat>, st: PageState, ppage: nat, upd: bool): (r: Process)
    ensures |r.vpt| == |p.vpt| && |r.ppt| == |p.ppt| && r.currentPosition == p.currentPosition
    ensures forall i :: 0 <= i < |p.vpt| ==>
      r.vpt[i] == if i in vpns then SetVpte(st, p.vpt[i]) else p.vpt[i]
    ensures forall i :: 0 <= i < |p.ppt| ==>
      r.ppt[i] == if i in vpns then SetPte(st, ppage, upd, p.ppt[i]) else p.ppt[i]
  {
    Process(
      seq(|p.vpt|, i requires 0 <= i < |p.vpt| => if i in vpns then SetVpte(st, p.vpt[i]) else p.vpt[i]),
      seq(|p.ppt|, i requires 0 <= i < |p.ppt| => if i in vpns then SetPte(st, ppage, upd, p.ppt[i]) else p.ppt[i]),
      p.currentPosition)
  }

  /** The canonical entry of `db` after `Set_state` on it (created if missing). */
  function SetStatus(status: Statuses, st: PageState, db: DiskBlock, ppage: nat, upd: bool): Statuses {
    var cs := if db in status then status[db] else DefaultStatus();
    status[db := BlockStatus(SetPte(st, ppage, upd, cs.ptes), SetVpte(st, cs.vptes))]
  }

  /** Every process's tables after `Set_state` on each page it lists for `db`. */
  function SetSharers(procs: Processes, sh: Sharers, st: PageState, db: DiskBlock, ppage: nat, upd: bool): Processes {
    map pid | pid in procs ::
      if db in sh && pid in sh[db] then ApplyTo(procs[pid], sh[db][pid], st, ppage, upd) else procs[pid]
  }

  /** The state after `Set_page_state(st, db, ppage, upd)`
      (Pager/vm_helper.cpp:4-25): the canonical entry of `db` and every entry
      listed in `share_map[db]` get `st`, and the frame `ppage` when `upd`
      holds. */
  function SetPageStateSpec(s: PagerState, st: PageState, db: DiskBlock, ppage: nat, upd: bool): PagerState {
    s.(status := SetStatus(s.status, st, db, ppage, upd),
       processes := SetSharers(s.processes, s.sharers, st, db, ppage, upd))
  }

  /** `Set_page_state` leaves the canonical entry of `db` holding `st`, the
      frame changed only when asked, and every other block's entry as it was. */
  lemma SetPageStateStatus(s: PagerState, st: PageState, db: DiskBlock, ppage: nat, upd: bool)
    ensures var s' := SetPageStateSpec(s, st, db, ppage, upd);
      && db in s'.status
      && StateOf(s'.status[db]) == st
      && s'.status[db].ptes.ppage == (if upd then ppage else StatusOf(s, db).ptes.ppage)
      && (forall b :: b != db ==> StatusOf(s', b) == StatusOf(s, b))
      && s'.status.Keys == s.status.Keys + {db}
  {
  }

  /** Every sharer of `db` gets `st` (and the frame when asked); every other
      page keeps its entries; no page changes its block or its cursor. */
  lemma SetPageStateEntry(s: PagerState, st: PageState, db: DiskBlock, ppage: nat, upd: bool, pid: int, v: nat)
    requires SharersLive(s.sharers, s.processes)
    requires pid in s.processes && v < |s.processes[pid].vpt| && v < |s.processes[pid].ppt|
    ensures var s' := SetPageStateSpec(s, st, db, ppage, upd);
      && pid in s'.processes
      && |s'.processes[pid].vpt| == |s.processes[pid].vpt|
      && |s'.processes[pid].ppt| == |s.processes[pid].ppt|
      && s'.processes[pid].currentPosition == s.processes[pid].currentPosition
      && Ident(s'.processes[pid].vpt[v]) == Ident(s.processes[pid].vpt[v])
      && s'.processes[pid].vpt[v].fileBacked == s.processes[pid].vpt[v].fileBacked
      && (IsSharer(s.sharers, db, pid, v) ==>
            && StateOf(BlockStatus(s'.processes[pid].ppt[v], s'.processes[pid].vpt[v])) == st
            && s'.processes[pid].ppt[v].ppage == (if upd then ppage else s.processes[pid].ppt[v].ppage))
      && (!IsSharer(s.sharers, db, pid, v) ==>
            s'.processes[pid].vpt[v] == s.processes[pid].vpt[v] &&
            s'.processes[pid].ppt[v] == s.processes[pid].ppt[v])
  {
  }

  // ---------------------------------------------------------------------
  // Invariants. Each predicate takes only the fields it reads.

  /** Frame 0 exists, is zero-filled, and every frame and every stored
      block holds one page. */
  ghost predicate WfMemory(physmem: seq<Page>, disk: map<StorageKey, Page>) {
    && |physmem| >= 1
    && (forall f :: 0 <= f < |physmem| ==> |physmem[f]| == PAGESIZE)
    && physmem[0] == ZeroPage()
    && (forall k :: k in disk ==> |disk[k]| == PAGESIZE)
  }

  /** Frames 1..m-1 are partitioned between the free queue and the clock
      queue, and every clock frame has an owner block. */
  ghost predicate WfFrames(free: seq<nat>, clock: seq<nat>, owner: map<nat, DiskBlock>, m: nat) {
    && Partition(free, clock, m)
    && (forall f :: f in clock ==> f in owner)
  }

  /** Tables are full-sized, frames in range, slots past the cursor untouched,
      and a mapped slot is file-backed exactly when it names a file. */
  ghost predicate WfProcess(p: Process, m: nat) {
    && |p.vpt| == ARENA_PAGES && |p.ppt| == ARENA_PAGES
    && p.currentPosition <= ARENA_PAGES
    && (forall i :: 0 <= i < ARENA_PAGES ==> p.ppt[i].ppage < m)
    && (forall i :: p.currentPosition <= i < ARENA_PAGES ==>
          p.vpt[i] == DefaultVirtualEntry() && p.ppt[i] == ClearedEntry())
    && (forall i :: 0 <= i < p.currentPosition ==> (p.vpt[i].fileBacked <==> p.vpt[i].filename != ""))
  }

  ghost predicate WfTables(procs: Processes, m: nat) {
    forall pid :: pid in procs ==> WfProcess(procs[pid], m)
  }

  ghost predicate WfStatus(status: Statuses, m: nat) {
    forall db :: db in status ==> status[db].ptes.ppage < m
  }

  /** Every entry of `share_map` is a mapped page of a live process that
      aliases that block, and no process is listed with no pages. */
  ghost predicate WfSharers(sh: Sharers, procs: Processes) {
    && (forall db, pid :: db in sh && pid in sh[db] ==> sh[db][pid] != [])
    && (forall db, pid, v: nat :: IsSharer(sh, db, pid, v) ==>
          && pid in procs
          && v < procs[pid].currentPosition
          && v < |procs[pid].vpt|
          && Ident(procs[pid].vpt[v]) == db)
  }

  /** Every mapped page is listed as a sharer of the block it aliases. */
  ghost predicate AllMapped(sh: Sharers, procs: Processes) {
    forall pid, v: nat :: pid in procs && v < procs[pid].currentPosition && v < |procs[pid].vpt| ==>
      IsSharer(sh, Ident(procs[pid].vpt[v]), pid, v)
  }

  /** A sharer's entries carry the canonical flags and frame. */
  predicate Agrees(st: BlockStatus, ve: VirtualEntry, pe: PageTableEntry) {
    StateOf(BlockStatus(pe, ve)) == StateOf(st) && pe.ppage == st.ptes.ppage
  }

  ghost predicate SharersAgree(sh: Sharers, status: Statuses, procs: Processes) {
    forall db, pid, v: nat :: IsSharer(sh, db, pid, v) ==>
      && db in status
      && pid in procs
      && v < |procs[pid].vpt| && v < |procs[pid].ppt|
      && Agrees(status[db], procs[pid].vpt[v], procs[pid].ppt[v])
  }

  /** Free swap slots are distinct; a swap slot in use is mapped by exactly
      one page of one process and is not free. */
  ghost predicate SwapSlots(sh: Sharers, freeSwap: seq<nat>) {
    && NoDup(freeSwap)
    && (forall db, p1, p2 :: db in sh && db.filename == "" && p1 in sh[db] && p2 in sh[db] ==>
          p1 == p2 && |sh[db][p1]| == 1 && db.block !in freeSwap)
  }

  /** The shape of the bookkeeping, kept by every `Set_page_state`. */
  ghost predicate Structural(s: PagerState) {
    && WfMemory(s.physmem, s.disk)
    && WfFrames(s.freeFrames, s.clock, s.owner, |s.physmem|)
    && WfTables(s.processes, |s.physmem|)
    && WfStatus(s.status, |s.physmem|)
    && WfSharers(s.sharers, s.processes)
    && AllMapped(s.sharers, s.processes)
    && SharersAgree(s.sharers, s.status, s.processes)
    && SwapSlots(s.sharers, s.freeSwap)
  }

  /** The entry state `vm_fault` treats as the pinned zero page
      (Pager/vm_pager.cpp:98): readable, not writable, not referenced. */
  predicate Pinned(st: BlockStatus) {
    st.ptes.readEnable && !st.ptes.writeEnable && !st.vptes.reference
  }

  /** A block is in the pinned state exactly when it is resident on frame 0,
      the zero page. */
  ghost predicate ZeroFrame(status: Statuses) {
    forall db :: db in status ==>
      (Pinned(status[db]) <==> status[db].vptes.resident && status[db].ptes.ppage == 0)
  }

  /** A block that is not resident can be neither read nor written. */
  ghost predicate NoAccessWhenOut(status: Statuses) {
    forall db :: db in status && !status[db].vptes.resident ==>
      !status[db].ptes.readEnable && !status[db].ptes.writeEnable
  }

  /** A block still in use: a file block, or a swap slot some process maps. */
  predicate Live(sh: Sharers, db: DiskBlock) {
    db.filename != "" || Shared(sh, db)
  }

  /** Every clock frame, except `pending` (0 for none), belongs to a live
      block that is canonically resident on that frame. */
  ghost predicate ClockOwned(clock: seq<nat>, owner: map<nat, DiskBlock>, status: Statuses, sh: Sharers, pending: nat) {
    forall f :: f in clock && f != pending ==>
      && f in owner
      && owner[f] in status
      && status[owner[f]].vptes.resident
      && status[owner[f]].ptes.ppage == f
      && Live(sh, owner[f])
  }

  /** A live block resident on a real frame is on the clock and owns it. */
  ghost predicate ResidentOnClock(status: Statuses, clock: seq<nat>, owner: map<nat, DiskBlock>, sh: Sharers) {
    forall db :: db in status && status[db].vptes.resident && status[db].ptes.ppage != 0 && Live(sh, db) ==>
      status[db].ptes.ppage in clock && status[db].ptes.ppage in owner
      && owner[status[db].ptes.ppage] == db
  }

  ghost predicate Residency(s: PagerState, pending: nat) {
    && ZeroFrame(s.status)
    && NoAccessWhenOut(s.status)
    && ClockOwned(s.clock, s.owner, s.status, s.sharers, pending)
    && ResidentOnClock(s.status, s.clock, s.owner, s.sharers)
  }

  /** The invariant every entry point keeps. */
  ghost predicate Coherent(s: PagerState) {
    Structural(s) && Residency(s, 0)
  }

  lemma StructuralSharersLive(s: PagerState)
    requires WfTables(s.processes, |s.physmem|) && WfSharers(s.sharers, s.processes)
    ensures SharersLive(s.sharers, s.processes)
  {
  }

  /** `Set_page_state` keeps every table well formed, provided a frame it
      records exists. */
  lemma SetPageStateTables(s: PagerState, st: PageState, db: DiskBlock, ppage: nat, upd: bool)
    requires Structural(s)
    requires upd ==> ppage < |s.physmem|
    ensures WfTables(SetPageStateSpec(s, st, db, ppage, upd).processes, |s.physmem|)
  {
    StructuralSharersLive(s);
    var s' := SetPageStateSpec(s, st, db, ppage, upd);
    forall pid | pid in s'.processes ensures WfProcess(s'.processes[pid], |s.physmem|) {
      var p, p' := s.processes[pid], s'.processes[pid];
      assert WfProcess(p, |s.physmem|);
      forall i: nat | i < ARENA_PAGES {
        SetPageStateEntry(s, st, db, ppage, upd, pid, i);
      }
      forall i: nat | i < ARENA_PAGES ensures p'.ppt[i].ppage < |s.physmem| {
        if IsSharer(s.sharers, db, pid, i) {
          assert s.sharers[db][pid] != [];
        }
      }
      forall i: nat | p.currentPosition <= i < ARENA_PAGES
        ensures p'.vpt[i] == DefaultVirtualEntry() && p'.ppt[i] == ClearedEntry()
      {
        assert !IsSharer(s.sharers, db, pid, i);
      }
      forall i: nat | i < p.currentPosition
        ensures p'.vpt[i].fileBacked <==> p'.vpt[i].filename != ""
      {
        assert Ident(p'.vpt[i]) == Ident(p.vpt[i]);
      }
    }
  }

  /** `Set_page_state` keeps the sharer lists consistent with the tables and
      the canonical entries. */
  lemma SetPageStateSharers(s: PagerState, st: PageState, db: DiskBlock, ppage: nat, upd: bool)
    requires Structural(s)
    ensures var s' := SetPageStateSpec(s, st, db, ppage, upd);
      && WfSharers(s'.sharers, s'.processes)
      && AllMapped(s'.sharers, s'.processes)
      && SharersAgree(s'.sharers, s'.status, s'.processes)
  {
    StructuralSharersLive(s);
    SetPageStateStatus(s, st, db, ppage, upd);
    var s' := SetPageStateSpec(s, st, db, ppage, upd);
    forall pid, v: nat | pid in s.processes && v < ARENA_PAGES {
      SetPageStateEntry(s, st, db, ppage, upd, pid, v);
    }
    assert WfSharers(s'.sharers, s'.processes) by {
      forall b, pid, v: nat | IsSharer(s'.sharers, b, pid, v)
        ensures pid in s'.processes && v < s'.processes[pid].currentPosition
        ensures v < |s'.processes[pid].vpt| && Ident(s'.processes[pid].vpt[v]) == b
      {
        assert IsSharer(s.sharers, b, pid, v);
      }
    }
    assert AllMapped(s'.sharers, s'.processes) by {
      forall pid, v: nat | pid in s'.processes && v < s'.processes[pid].currentPosition && v < |s'.processes[pid].vpt|
        ensures IsSharer(s'.sharers, Ident(s'.processes[pid].vpt[v]), pid, v)
      {
        assert IsSharer(s.sharers, Ident(s.processes[pid].vpt[v]), pid, v);
      }
    }
    assert SharersAgree(s'.sharers, s'.status, s'.processes) by {
      forall b, pid, v: nat | IsSharer(s'.sharers, b, pid, v)
        ensures b in s'.status && pid in s'.processes
        ensures v < |s'.processes[pid].vpt| && v < |s'.processes[pid].ppt|
        ensures Agrees(s'.status[b], s'.processes[pid].vpt[v], s'.processes[pid].ppt[v])
      {
        assert IsSharer(s.sharers, b, pid, v);
        if b != db {
          assert !IsSharer(s.sharers, db, pid, v);
        }
      }
    }
  }

  /** `Set_page_state` keeps the bookkeeping's shape whatever it writes,
      provided a frame it records exists. */
  lemma SetPageStateStructural(s: PagerState, st: PageState, db: DiskBlock, ppage: nat, upd: bool)
    requires Structural(s)
    requires upd ==> ppage < |s.physmem|
    ensures Structural(SetPageStateSpec(s, st, db, ppage, upd))
  {
    SetPageStateStatus(s, st, db, ppage, upd);
    SetPageStateTables(s, st, db, ppage, upd);
    SetPageStateSharers(s, st, db, ppage, upd);
    var s' := SetPageStateSpec(s, st, db, ppage, upd);
    assert WfStatus(s'.status, |s'.physmem|);
  }

  /** What the MMU can reach under the invariant: a writable page is never on
      frame 0, a readable page is resident, and a readable page is either the
      pinned zero page or on a clock frame that its own block owns. */
  lemma MappedPageSafety(s: PagerState, pid: int, v: nat)
    requires Coherent(s)
    requires pid in s.processes && v < s.processes[pid].currentPosition
    ensures v < |s.processes[pid].vpt| && v < |s.processes[pid].ppt|
    ensures var e, ve := s.processes[pid].ppt[v], s.processes[pid].vpt[v];
      && (e.writeEnable ==> e.ppage != 0)
      && (e.readEnable ==> ve.resident)
      && (e.readEnable && e.ppage != 0 ==> e.ppage in s.clock && s.owner[e.ppage] == Ident(s.processes[pid].vpt[v]))
      && (e.readEnable && e.ppage == 0 ==> !e.writeEnable)
  {
    var p := s.processes[pid];
    assert WfProcess(p, |s.physmem|);
    var db := Ident(p.vpt[v]);
    assert IsSharer(s.sharers, db, pid, v);
    assert Agrees(s.status[db], p.vpt[v], p.ppt[v]);
    assert Live(s.sharers, db) by {
      assert pid in s.sharers[db];
    }
  }

  /** The clock head is a real frame with an owner. */
  lemma HeadFrame(s: PagerState)
    requires Structural(s) && s.clock != []
    ensures 1 <= s.clock[0] < |s.physmem| && s.clock[0] in s.owner
  {
    PartitionNoDup(s.freeFrames, s.clock, |s.physmem|);
    assert s.clock[0] in s.clock;
  }

  /** With at least one frame besides the zero frame, a frame is free or on
      the clock: the assertion of Pager/vm_helper.cpp:40 holds. */
  lemma FramesAvailable(s: PagerState)
    requires Partition(s.freeFrames, s.clock, |s.physmem|) && |s.physmem| >= 2
    ensures s.freeFrames != [] || s.clock != []
  {
    assert multiset(s.freeFrames + s.clock)[1] == 1;
  }
}
