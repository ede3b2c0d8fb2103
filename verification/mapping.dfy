/**
 * `vm_map` (Pager/vm_pager.cpp:136-201) as specification functions over
 * `PagerState`: a swap-backed page takes the front free swap slot and starts
 * as the pinned zero page; a file-backed page joins the block's sharers and
 * copies its canonical entries. Each step follows the source's order
 * (`share_map` push, `Set_page_state`, entry fields, cursor), and a closed
 * form of each result carries the invariant proof.
 */
module Mapping {
  import opened Common
  import opened Structure
  import opened Queues
  import opened PagerState
  import opened Faults

  /** `share_map[db][pid].push_back(v)`; `operator[]` creates missing levels. */
  function AddSharer(sh: Sharers, db: DiskBlock, pid: int, v: nat): (r: Sharers)
    ensures r.Keys == sh.Keys + {db}
    ensures forall b :: b in sh && b != db ==> r[b] == sh[b]
    ensures forall b, q, u: nat :: IsSharer(r, b, q, u) <==> IsSharer(sh, b, q, u) || (b, q, u) == (db, pid, v)
  {
    var m := if db in sh then sh[db] else map[];
    var l := if pid in m then m[pid] else [];
    sh[db := m[pid := l + [v]]]
  }

  /** The tail of both branches (Pager/vm_pager.cpp:158-162, 194-198): the
      new page's backing fields are written and the cursor advances. */
  function Attach(s: PagerState, fileBacked: bool, name: string, block: nat): PagerState
    requires s.currentPid in s.processes
    requires s.processes[s.currentPid].currentPosition < |s.processes[s.currentPid].vpt|
  {
    var p := s.processes[s.currentPid];
    var i := p.currentPosition;
    s.(processes := s.processes[s.currentPid :=
      p.(vpt := p.vpt[i := p.vpt[i].(fileBacked := fileBacked, filename := name, block := block)],
         currentPosition := i + 1)])
  }

  /** The current process is registered and its tables have the arena's
      fixed size, as the array types of structure.h guarantee. */
  predicate Tabled(s: PagerState) {
    && s.currentPid in s.processes
    && |s.processes[s.currentPid].vpt| == ARENA_PAGES
    && |s.processes[s.currentPid].ppt| == ARENA_PAGES
  }

  /** The process `vm_map` works on is registered and the invariant holds. */
  ghost predicate Mappable(s: PagerState) {
    Coherent(s) && s.currentPid in s.processes
  }

  /** The arena has no page left for the current process
      (Pager/vm_pager.cpp:138). */
  predicate ArenaFull(s: PagerState)
    requires s.currentPid in s.processes
  {
    s.processes[s.currentPid].currentPosition >= ARENA_PAGES
  }

  /** The address of arena page `i`. */
  function PageAddress(i: nat): nat {
    ARENA_BASE + i * PAGESIZE
  }

  /** The entry state a swap-backed page starts in: the pinned zero page
      (Pager/vm_pager.cpp:157). */
  const ZeroPinned: PageState := PageState(true, false, true, false, false)

  /** `vm_map(nullptr, _)` (Pager/vm_pager.cpp:138-164): the new state and
      the returned address (None for `nullptr`). */
  function MapSwapSpec(s: PagerState): (PagerState, Option<nat>)
    requires Tabled(s)
  {
    if ArenaFull(s) || s.freeSwap == [] then (s, None)
    else
      var cur := s.currentPid;
      var i := s.processes[cur].currentPosition;
      var slot := s.freeSwap[0];
      var sb := DiskBlock("", slot);
      var s1 := s.(freeSwap := s.freeSwap[1..], sharers := AddSharer(s.sharers, sb, cur, i));
      var s2 := SetPageStateSpec(s1, ZeroPinned, sb, 0, true);
      (Attach(s2, false, "", slot), Some(PageAddress(i)))
  }

  /** The entries `vm_map` gives a file page: a copy of the block's canonical
      state, or the all-clear state when no process has used the block
      (Pager/vm_pager.cpp:185-193). */
  function FileState(s: PagerState, fb: DiskBlock): (PageState, nat, bool) {
    if fb in s.status then
      (StateOf(s.status[fb]), s.status[fb].ptes.ppage, true)
    else
      (PageState(false, false, false, false, false), 0, false)
  }

  /** The file-backed branch of `vm_map` once `Find_filename` has produced
      `name` (Pager/vm_pager.cpp:181-199). `name` is what `Find_filename`
      returns, never empty: it keeps its terminating NUL. */
  function BindFileSpec(s: PagerState, name: string, block: nat): PagerState
    requires Tabled(s) && !ArenaFull(s)
  {
    var cur := s.currentPid;
    var i := s.processes[cur].currentPosition;
    var fb := DiskBlock(name, block);
    var s1 := s.(sharers := AddSharer(s.sharers, fb, cur, i));
    var (st, f, upd) := FileState(s1, fb);
    var s2 := SetPageStateSpec(s1, st, fb, f, upd);
    Attach(s2, true, name, block)
  }

  /** The file-name pointer lies in the part of the arena already mapped
      (Pager/vm_pager.cpp:168-172). */
  predicate NameInArena(s: PagerState, nameAddr: nat)
    requires s.currentPid in s.processes
  {
    PageAddress(0) <= nameAddr < PageAddress(s.processes[s.currentPid].currentPosition)
  }

  // ---------------------------------------------------------------------
  // Closed forms

  /** The current process's table after a new page `i` gets entries `ve`, `pe`. */
  function Grow(p: Process, ve: VirtualEntry, pe: PageTableEntry): Process
    requires p.currentPosition < |p.vpt| && p.currentPosition < |p.ppt|
  {
    var i := p.currentPosition;
    p.(vpt := p.vpt[i := ve], ppt := p.ppt[i := pe], currentPosition := i + 1)
  }

  /** Slot `i` of the process past its cursor is untouched. */
  predicate Blank(p: Process, i: nat) {
    i < |p.vpt| && i < |p.ppt| && p.vpt[i] == DefaultVirtualEntry() && p.ppt[i] == ClearedEntry()
  }

  /** No process lists a page for `db` (the entry may exist, empty). */
  predicate Unshared(sh: Sharers, db: DiskBlock) {
    db in sh ==> sh[db] == map[]
  }

  /** Every sharer of `fb` is a page of a live process, before the current
      process's cursor, whose entries agree with `cs`. */
  ghost predicate SharersMatch(s: PagerState, fb: DiskBlock, cs: BlockStatus)
    requires Tabled(s)
  {
    forall q, v: nat :: IsSharer(s.sharers, fb, q, v) ==>
      && q in s.processes && v < |s.processes[q].vpt| && v < |s.processes[q].ppt|
      && Agrees(cs, s.processes[q].vpt[v], s.processes[q].ppt[v])
      && (q == s.currentPid ==> v < s.processes[q].currentPosition)
  }

  /** What the invariant tells `vm_map` about its inputs. */
  lemma MapPreconditions(s: PagerState, db: DiskBlock)
    requires Mappable(s)
    ensures Tabled(s)
    ensures !ArenaFull(s) ==> Blank(s.processes[s.currentPid], s.processes[s.currentPid].currentPosition)
    ensures db in s.status ==> SharersMatch(s, db, s.status[db])
    ensures db !in s.status ==> Unshared(s.sharers, db)
    ensures s.freeSwap != [] ==> Unshared(s.sharers, DiskBlock("", s.freeSwap[0]))
  {
    assert WfProcess(s.processes[s.currentPid], |s.physmem|);
    if db !in s.status && db in s.sharers {
      forall q | q in s.sharers[db] ensures false {
        assert s.sharers[db][q] != [];
        assert IsSharer(s.sharers, db, q, s.sharers[db][q][0]);
      }
      assert s.sharers[db].Keys == {};
    }
    if s.freeSwap != [] && DiskBlock("", s.freeSwap[0]) in s.sharers {
      var sb := DiskBlock("", s.freeSwap[0]);
      assert s.freeSwap[0] in s.freeSwap;
      forall q | q in s.sharers[sb] ensures false {
      }
      assert s.sharers[sb].Keys == {};
    }
    if db in s.status {
      forall q, v: nat | IsSharer(s.sharers, db, q, v)
        ensures && q in s.processes && v < |s.processes[q].vpt| && v < |s.processes[q].ppt|
                && Agrees(s.status[db], s.processes[q].vpt[v], s.processes[q].ppt[v])
                && (q == s.currentPid ==> v < s.processes[q].currentPosition)
      {
      }
    }
  }

  /** `AddSharer` on a block nobody shares yields a single sharer. */
  lemma AddFirstSharer(sh: Sharers, db: DiskBlock, pid: int, v: nat)
    requires Unshared(sh, db)
    ensures AddSharer(sh, db, pid, v) == sh[db := map[pid := [v]]]
  {
    var m: map<int, seq<nat>> := if db in sh then sh[db] else map[];
    assert m == map[];
    var none: seq<nat> := [];
    assert none + [v] == [v];
    assert m[pid := none + [v]] == map[pid := [v]];
  }

  /** The state a successful swap map leaves: the slot leaves the free
      queue, the process is its only sharer, its canonical entry is the
      pinned zero page, and the new page is the only table entry that
      changes. */
  function SwapGrown(s: PagerState): PagerState
    requires Tabled(s) && !ArenaFull(s) && s.freeSwap != []
  {
    var cur, slot := s.currentPid, s.freeSwap[0];
    var sb := DiskBlock("", slot);
    var p := s.processes[cur];
    s.(freeSwap := s.freeSwap[1..],
       sharers := s.sharers[sb := map[cur := [p.currentPosition]]],
       status := s.status[sb := BlockStatus(PageTableEntry(0, true, false), SetVpte(ZeroPinned, StatusOf(s, sb).vptes))],
       processes := s.processes[cur := Grow(p, VirtualEntry(false, true, false, false, "", slot), PageTableEntry(0, true, false))])
  }

  /** `Set_state` on a block with one sharer rewrites that one process only. */
  lemma SetSoleSharer(procs: Processes, sh: Sharers, st: PageState, db: DiskBlock, ppage: nat, upd: bool, pid: int, v: nat)
    requires pid in procs && db in sh && sh[db] == map[pid := [v]]
    ensures SetSharers(procs, sh, st, db, ppage, upd) == procs[pid := ApplyTo(procs[pid], [v], st, ppage, upd)]
  {
  }

  /** Pinning the zero page on a blank slot and attaching swap `slot` there
      writes exactly the entries `vm_map` gives a swap page. */
  lemma SwapEntryFromBlank(s2: PagerState, p: Process, slot: nat)
    requires Blank(p, p.currentPosition)
    requires s2.currentPid in s2.processes
    requires s2.processes[s2.currentPid] == ApplyTo(p, [p.currentPosition], ZeroPinned, 0, true)
    ensures Attach(s2, false, "", slot) == s2.(processes := s2.processes[s2.currentPid :=
      Grow(p, VirtualEntry(false, true, false, false, "", slot), PageTableEntry(0, true, false))])
  {
    var i := p.currentPosition;
    var q := ApplyTo(p, [i], ZeroPinned, 0, true);
    var g := Grow(p, VirtualEntry(false, true, false, false, "", slot), PageTableEntry(0, true, false));
    var a := q.(vpt := q.vpt[i := q.vpt[i].(fileBacked := false, filename := "", block := slot)], currentPosition := i + 1);
    assert a.vpt == g.vpt;
    assert a.ppt == g.ppt;
  }

  lemma ReplaceTwice(m: Processes, k: int, a: Process, b: Process)
    ensures m[k := a][k := b] == m[k := b]
  {
  }

  lemma MapSwapClosed(s: PagerState)
    requires Tabled(s) && !ArenaFull(s) && s.freeSwap != []
    requires Blank(s.processes[s.currentPid], s.processes[s.currentPid].currentPosition)
    requires Unshared(s.sharers, DiskBlock("", s.freeSwap[0]))
    ensures MapSwapSpec(s).0 == SwapGrown(s)
  {
    var cur, slot := s.currentPid, s.freeSwap[0];
    var sb := DiskBlock("", slot);
    var p := s.processes[cur];
    var i := p.currentPosition;
    AddFirstSharer(s.sharers, sb, cur, i);
    var sh1 := AddSharer(s.sharers, sb, cur, i);
    SetSoleSharer(s.processes, sh1, ZeroPinned, sb, 0, true, cur, i);
    var s1 := s.(freeSwap := s.freeSwap[1..], sharers := sh1);
    var s2 := SetPageStateSpec(s1, ZeroPinned, sb, 0, true);
    var q := ApplyTo(p, [i], ZeroPinned, 0, true);
    var g := Grow(p, VirtualEntry(false, true, false, false, "", slot), PageTableEntry(0, true, false));
    assert s2.processes == s.processes[cur := q];
    SwapEntryFromBlank(s2, p, slot);
    ReplaceTwice(s.processes, cur, q, g);
    assert s2.status == SwapGrown(s).status;
  }

  /** Re-applying a block's canonical state to a process changes only the
      one entry (`i`, when `added`) that did not already agree with it. */
  lemma ApplyCopies(p: Process, vpns: seq<nat>, cs: BlockStatus, i: nat, added: bool)
    requires added ==> i < |p.vpt| && i < |p.ppt|
    requires forall v :: v in vpns && !(added && v == i) ==>
      v < |p.vpt| && v < |p.ppt| && Agrees(cs, p.vpt[v], p.ppt[v])
    ensures ApplyTo(p, vpns, StateOf(cs), cs.ptes.ppage, true) ==
      if added && i in vpns then p.(vpt := p.vpt[i := SetVpte(StateOf(cs), p.vpt[i])], ppt := p.ppt[i := cs.ptes]) else p
  {
    var r := ApplyTo(p, vpns, StateOf(cs), cs.ptes.ppage, true);
    var t := if added && i in vpns then p.(vpt := p.vpt[i := SetVpte(StateOf(cs), p.vpt[i])], ppt := p.ppt[i := cs.ptes]) else p;
    forall v | 0 <= v < |p.vpt| ensures r.vpt[v] == t.vpt[v] {
    }
    forall v | 0 <= v < |p.ppt| ensures r.ppt[v] == t.ppt[v] {
    }
  }

  /** The state a file map of a block some process already uses leaves:
      the statuses are untouched and the new page copies the canonical
      entries. */
  function FileJoined(s: PagerState, name: string, block: nat): PagerState
    requires Tabled(s) && !ArenaFull(s) && DiskBlock(name, block) in s.status
  {
    var cur, fb := s.currentPid, DiskBlock(name, block);
    var p := s.processes[cur];
    var cs := s.status[fb];
    s.(sharers := AddSharer(s.sharers, fb, cur, p.currentPosition),
       processes := s.processes[cur := Grow(p, cs.vptes.(fileBacked := true, filename := name, block := block), cs.ptes)])
  }

  /** Joining the sharers of a known block touches only the new page: every
      earlier sharer already agrees with the block's entry. */
  lemma JoinedSharerEntry(s: PagerState, fb: DiskBlock, cs: BlockStatus, q: int)
    requires Tabled(s) && !ArenaFull(s)
    requires SharersMatch(s, fb, cs)
    requires q in s.processes
    ensures var cur := s.currentPid;
      var p := s.processes[cur];
      var i := p.currentPosition;
      SetSharers(s.processes, AddSharer(s.sharers, fb, cur, i), StateOf(cs), fb, cs.ptes.ppage, true)[q] ==
        if q == cur then p.(vpt := p.vpt[i := SetVpte(StateOf(cs), p.vpt[i])], ppt := p.ppt[i := cs.ptes])
        else s.processes[q]
  {
    var cur := s.currentPid;
    var i := s.processes[cur].currentPosition;
    var sh1 := AddSharer(s.sharers, fb, cur, i);
    var pq := s.processes[q];
    if fb in sh1 && q in sh1[fb] {
      forall v | v in sh1[fb][q] && !(q == cur && v == i)
        ensures v < |pq.vpt| && v < |pq.ppt| && Agrees(cs, pq.vpt[v], pq.ppt[v])
      {
        assert IsSharer(s.sharers, fb, q, v);
      }
      ApplyCopies(pq, sh1[fb][q], cs, if q == cur then i else 0, q == cur);
      if q == cur {
        assert IsSharer(sh1, fb, cur, i);
      }
    } else {
      assert q != cur by {
        assert IsSharer(sh1, fb, cur, i);
      }
    }
  }

  lemma BindFileClosedKnown(s: PagerState, name: string, block: nat)
    requires Tabled(s) && !ArenaFull(s)
    requires DiskBlock(name, block) in s.status
    requires SharersMatch(s, DiskBlock(name, block), s.status[DiskBlock(name, block)])
    ensures BindFileSpec(s, name, block) == FileJoined(s, name, block)
  {
    var cur, fb := s.currentPid, DiskBlock(name, block);
    var p := s.processes[cur];
    var i := p.currentPosition;
    var cs := s.status[fb];
    var sh1 := AddSharer(s.sharers, fb, cur, i);
    var s1 := s.(sharers := sh1);
    var s2 := SetPageStateSpec(s1, StateOf(cs), fb, cs.ptes.ppage, true);
    assert s2.status == s.status;
    var pc := p.(vpt := p.vpt[i := SetVpte(StateOf(cs), p.vpt[i])], ppt := p.ppt[i := cs.ptes]);
    forall q | q in s.processes ensures s2.processes[q] == if q == cur then pc else s.processes[q] {
      JoinedSharerEntry(s, fb, cs, q);
    }
    var ve := cs.vptes.(fileBacked := true, filename := name, block := block);
    assert Attach(s2, true, name, block).processes[cur] == Grow(p, ve, cs.ptes);
    assert Attach(s2, true, name, block).processes == s.processes[cur := Grow(p, ve, cs.ptes)];
  }

  /** The state a file map of a block no process has used leaves: the
      block gets the all-clear canonical entry and the new page is its only
      sharer. */
  function FileOpened(s: PagerState, name: string, block: nat): PagerState
    requires Tabled(s) && !ArenaFull(s)
  {
    var cur, fb := s.currentPid, DiskBlock(name, block);
    var p := s.processes[cur];
    s.(sharers := s.sharers[fb := map[cur := [p.currentPosition]]],
       status := s.status[fb := DefaultStatus()],
       processes := s.processes[cur := Grow(p, VirtualEntry(false, false, false, true, name, block), ClearedEntry())])
  }

  lemma BindFileClosedFresh(s: PagerState, name: string, block: nat)
    requires Tabled(s) && !ArenaFull(s)
    requires Blank(s.processes[s.currentPid], s.processes[s.currentPid].currentPosition)
    requires DiskBlock(name, block) !in s.status && Unshared(s.sharers, DiskBlock(name, block))
    ensures BindFileSpec(s, name, block) == FileOpened(s, name, block)
  {
    var cur, fb := s.currentPid, DiskBlock(name, block);
    var p := s.processes[cur];
    var i := p.currentPosition;
    AddFirstSharer(s.sharers, fb, cur, i);
    var sh1 := AddSharer(s.sharers, fb, cur, i);
    var s1 := s.(sharers := sh1);
    var clear := PageState(false, false, false, false, false);
    var s2 := SetPageStateSpec(s1, clear, fb, 0, false);
    assert s2.processes[cur] == ApplyTo(p, [i], clear, 0, false);
    assert Attach(s2, true, name, block).processes[cur] == Grow(p, VirtualEntry(false, false, false, true, name, block), ClearedEntry());
    assert s2.processes == s.processes[cur := ApplyTo(p, [i], clear, 0, false)];
  }

  // ---------------------------------------------------------------------
  // Invariant

  /** A page appended at the cursor keeps a process table well formed. */
  lemma GrowWf(p: Process, ve: VirtualEntry, pe: PageTableEntry, m: nat)
    requires WfProcess(p, m) && p.currentPosition < ARENA_PAGES
    requires pe.ppage < m && (ve.fileBacked <==> ve.filename != "")
    ensures WfProcess(Grow(p, ve, pe), m)
  {
  }

  /** The shape of the bookkeeping survives a swap map. */
  lemma SwapGrownStructural(s: PagerState)
    requires Mappable(s) && !ArenaFull(s) && s.freeSwap != []
    ensures Structural(SwapGrown(s))
  {
    var r := SwapGrown(s);
    var cur := s.currentPid;
    MapPreconditions(s, DiskBlock("", s.freeSwap[0]));
    GrowWf(s.processes[cur], VirtualEntry(false, true, false, false, "", s.freeSwap[0]), PageTableEntry(0, true, false), |s.physmem|);
    assert WfTables(r.processes, |r.physmem|);
    SwapGrownSharers(s);
    SwapGrownMapped(s);
    SwapGrownSlots(s);
  }

  lemma SwapGrownSharers(s: PagerState)
    requires Mappable(s) && !ArenaFull(s) && s.freeSwap != []
    ensures WfSharers(SwapGrown(s).sharers, SwapGrown(s).processes)
    ensures SharersAgree(SwapGrown(s).sharers, SwapGrown(s).status, SwapGrown(s).processes)
  {
    var sb := DiskBlock("", s.freeSwap[0]);
    MapPreconditions(s, sb);
    var r := SwapGrown(s);
    forall db, pid, v: nat | IsSharer(r.sharers, db, pid, v)
      ensures pid in r.processes && v < r.processes[pid].currentPosition && v < |r.processes[pid].vpt|
      ensures Ident(r.processes[pid].vpt[v]) == db
      ensures db in r.status && v < |r.processes[pid].ppt|
      ensures Agrees(r.status[db], r.processes[pid].vpt[v], r.processes[pid].ppt[v])
    {
      if db != sb {
        assert IsSharer(s.sharers, db, pid, v);
        assert v < s.processes[pid].currentPosition;
      }
    }
  }

  lemma SwapGrownMapped(s: PagerState)
    requires Mappable(s) && !ArenaFull(s) && s.freeSwap != []
    ensures AllMapped(SwapGrown(s).sharers, SwapGrown(s).processes)
  {
    var sb := DiskBlock("", s.freeSwap[0]);
    MapPreconditions(s, sb);
    var r := SwapGrown(s);
    var cur := s.currentPid;
    var i := s.processes[cur].currentPosition;
    forall pid, v: nat | pid in r.processes && v < r.processes[pid].currentPosition && v < |r.processes[pid].vpt|
      ensures IsSharer(r.sharers, Ident(r.processes[pid].vpt[v]), pid, v)
    {
      if !(pid == cur && v == i) {
        assert IsSharer(s.sharers, Ident(s.processes[pid].vpt[v]), pid, v);
      }
    }
  }

  lemma SwapGrownSlots(s: PagerState)
    requires Mappable(s) && !ArenaFull(s) && s.freeSwap != []
    ensures SwapSlots(SwapGrown(s).sharers, SwapGrown(s).freeSwap)
  {
    var r := SwapGrown(s);
    assert s.freeSwap == [s.freeSwap[0]] + s.freeSwap[1..];
    assert NoDup(r.freeSwap) by {
      forall x ensures multiset(r.freeSwap)[x] <= 1 {
        assert multiset(s.freeSwap)[x] == multiset([s.freeSwap[0]])[x] + multiset(r.freeSwap)[x];
      }
    }
    assert s.freeSwap[0] !in r.freeSwap by {
      assert multiset(s.freeSwap)[s.freeSwap[0]] == 1 + multiset(r.freeSwap)[s.freeSwap[0]];
    }
  }

  /** Residency survives a swap map: the new block sits on the zero page,
      and no clock frame belonged to the reused slot. */
  lemma SwapGrownResidency(s: PagerState)
    requires Mappable(s) && !ArenaFull(s) && s.freeSwap != []
    ensures Residency(SwapGrown(s), 0)
  {
    var sb := DiskBlock("", s.freeSwap[0]);
    MapPreconditions(s, sb);
    var r := SwapGrown(s);
    assert forall db :: db != sb ==> (Live(r.sharers, db) <==> Live(s.sharers, db));
    assert !Live(s.sharers, sb);
    PartitionNoDup(s.freeFrames, s.clock, |s.physmem|);
    forall f | f in r.clock ensures s.owner[f] != sb {
      assert f != 0;
    }
  }

  /** `vm_map(nullptr, _)` keeps the pager's invariant. */
  lemma MapSwapCoherent(s: PagerState)
    requires Mappable(s)
    ensures Coherent(MapSwapSpec(s).0)
  {
    if !ArenaFull(s) && s.freeSwap != [] {
      MapPreconditions(s, DiskBlock("", s.freeSwap[0]));
      MapSwapClosed(s);
      SwapGrownStructural(s);
      SwapGrownResidency(s);
    }
  }

  /** The shape of the bookkeeping survives a file map of a known block. */
  lemma FileJoinedStructural(s: PagerState, name: string, block: nat)
    requires Mappable(s) && !ArenaFull(s) && name != "" && DiskBlock(name, block) in s.status
    ensures Structural(FileJoined(s, name, block))
  {
    var fb := DiskBlock(name, block);
    var cs := s.status[fb];
    MapPreconditions(s, fb);
    var r := FileJoined(s, name, block);
    var cur := s.currentPid;
    GrowWf(s.processes[cur], cs.vptes.(fileBacked := true, filename := name, block := block), cs.ptes, |s.physmem|);
    assert WfTables(r.processes, |r.physmem|);
    FileJoinedSharers(s, name, block);
    FileJoinedMapped(s, name, block);
    assert SwapSlots(r.sharers, r.freeSwap) by {
      assert forall db :: db != fb && db in s.sharers ==> r.sharers[db] == s.sharers[db];
    }
  }

  lemma FileJoinedSharers(s: PagerState, name: string, block: nat)
    requires Mappable(s) && !ArenaFull(s) && DiskBlock(name, block) in s.status
    ensures WfSharers(FileJoined(s, name, block).sharers, FileJoined(s, name, block).processes)
    ensures SharersAgree(FileJoined(s, name, block).sharers, FileJoined(s, name, block).status, FileJoined(s, name, block).processes)
  {
    var fb := DiskBlock(name, block);
    MapPreconditions(s, fb);
    var r := FileJoined(s, name, block);
    var cur := s.currentPid;
    var i := s.processes[cur].currentPosition;
    forall db, pid | db in r.sharers && pid in r.sharers[db] ensures r.sharers[db][pid] != [] {
      if db != fb {
        assert db in s.sharers && pid in s.sharers[db];
      }
    }
    forall db, pid, v: nat | IsSharer(r.sharers, db, pid, v)
      ensures pid in r.processes && v < r.processes[pid].currentPosition && v < |r.processes[pid].vpt|
      ensures Ident(r.processes[pid].vpt[v]) == db
      ensures db in r.status && v < |r.processes[pid].ppt|
      ensures Agrees(r.status[db], r.processes[pid].vpt[v], r.processes[pid].ppt[v])
    {
      if (db, pid, v) != (fb, cur, i) {
        assert IsSharer(s.sharers, db, pid, v);
        assert v < s.processes[pid].currentPosition;
      }
    }
  }

  lemma FileJoinedMapped(s: PagerState, name: string, block: nat)
    requires Mappable(s) && !ArenaFull(s) && DiskBlock(name, block) in s.status
    ensures AllMapped(FileJoined(s, name, block).sharers, FileJoined(s, name, block).processes)
  {
    var fb := DiskBlock(name, block);
    MapPreconditions(s, fb);
    var r := FileJoined(s, name, block);
    var cur := s.currentPid;
    var i := s.processes[cur].currentPosition;
    forall pid, v: nat | pid in r.processes && v < r.processes[pid].currentPosition && v < |r.processes[pid].vpt|
      ensures IsSharer(r.sharers, Ident(r.processes[pid].vpt[v]), pid, v)
    {
      if !(pid == cur && v == i) {
        assert IsSharer(s.sharers, Ident(s.processes[pid].vpt[v]), pid, v);
      }
    }
  }

  /** Residency survives a file map of a known block: no status changes and
      the block was already live. */
  lemma FileJoinedResidency(s: PagerState, name: string, block: nat)
    requires Mappable(s) && !ArenaFull(s) && name != "" && DiskBlock(name, block) in s.status
    ensures Residency(FileJoined(s, name, block), 0)
  {
    var fb := DiskBlock(name, block);
    var r := FileJoined(s, name, block);
    assert forall db :: Live(r.sharers, db) <==> Live(s.sharers, db);
  }

  /** The shape of the bookkeeping survives a file map of a new block. */
  lemma FileOpenedStructural(s: PagerState, name: string, block: nat)
    requires Mappable(s) && !ArenaFull(s) && name != "" && DiskBlock(name, block) !in s.status
    ensures Structural(FileOpened(s, name, block))
  {
    var fb := DiskBlock(name, block);
    MapPreconditions(s, fb);
    var r := FileOpened(s, name, block);
    var cur := s.currentPid;
    GrowWf(s.processes[cur], VirtualEntry(false, false, false, true, name, block), ClearedEntry(), |s.physmem|);
    assert WfTables(r.processes, |r.physmem|);
    FileOpenedSharers(s, name, block);
    FileOpenedMapped(s, name, block);
    assert SwapSlots(r.sharers, r.freeSwap) by {
      assert forall db :: db != fb && db in s.sharers ==> r.sharers[db] == s.sharers[db];
    }
  }

  lemma FileOpenedSharers(s: PagerState, name: string, block: nat)
    requires Mappable(s) && !ArenaFull(s) && DiskBlock(name, block) !in s.status
    ensures WfSharers(FileOpened(s, name, block).sharers, FileOpened(s, name, block).processes)
    ensures SharersAgree(FileOpened(s, name, block).sharers, FileOpened(s, name, block).status, FileOpened(s, name, block).processes)
  {
    var fb := DiskBlock(name, block);
    MapPreconditions(s, fb);
    var r := FileOpened(s, name, block);
    forall db, pid, v: nat | IsSharer(r.sharers, db, pid, v)
      ensures pid in r.processes && v < r.processes[pid].currentPosition && v < |r.processes[pid].vpt|
      ensures Ident(r.processes[pid].vpt[v]) == db
      ensures db in r.status && v < |r.processes[pid].ppt|
      ensures Agrees(r.status[db], r.processes[pid].vpt[v], r.processes[pid].ppt[v])
    {
      if db != fb {
        assert IsSharer(s.sharers, db, pid, v);
        assert v < s.processes[pid].currentPosition;
      }
    }
  }

  lemma FileOpenedMapped(s: PagerState, name: string, block: nat)
    requires Mappable(s) && !ArenaFull(s) && DiskBlock(name, block) !in s.status
    ensures AllMapped(FileOpened(s, name, block).sharers, FileOpened(s, name, block).processes)
  {
    var fb := DiskBlock(name, block);
    MapPreconditions(s, fb);
    var r := FileOpened(s, name, block);
    var cur := s.currentPid;
    var i := s.processes[cur].currentPosition;
    forall pid, v: nat | pid in r.processes && v < r.processes[pid].currentPosition && v < |r.processes[pid].vpt|
      ensures IsSharer(r.sharers, Ident(r.processes[pid].vpt[v]), pid, v)
    {
      if !(pid == cur && v == i) {
        assert IsSharer(s.sharers, Ident(s.processes[pid].vpt[v]), pid, v);
      }
    }
  }

  /** Residency survives a file map of a new block: its entry is cleared, so
      it is neither pinned nor resident. */
  lemma FileOpenedResidency(s: PagerState, name: string, block: nat)
    requires Mappable(s) && !ArenaFull(s) && name != "" && DiskBlock(name, block) !in s.status
    ensures Residency(FileOpened(s, name, block), 0)
  {
    var fb := DiskBlock(name, block);
    var r := FileOpened(s, name, block);
    assert forall db :: db != fb ==> (Live(r.sharers, db) <==> Live(s.sharers, db));
    PartitionNoDup(s.freeFrames, s.clock, |s.physmem|);
    forall f | f in r.clock ensures s.owner[f] != fb {
      assert f != 0;
    }
  }

  /** The file-backed tail of `vm_map` keeps the pager's invariant. */
  lemma BindFileCoherent(s: PagerState, name: string, block: nat)
    requires Mappable(s) && !ArenaFull(s) && name != ""
    ensures Coherent(BindFileSpec(s, name, block))
  {
    var fb := DiskBlock(name, block);
    MapPreconditions(s, fb);
    if fb in s.status {
      BindFileClosedKnown(s, name, block);
      FileJoinedStructural(s, name, block);
      FileJoinedResidency(s, name, block);
    } else {
      BindFileClosedFresh(s, name, block);
      FileOpenedStructural(s, name, block);
      FileOpenedResidency(s, name, block);
    }
  }

  // ---------------------------------------------------------------------
  // Effects

  /** The returned address lies in the new page, the last page of the
      current process's arena. */
  lemma PageAddressVpn(i: nat)
    ensures PageAddress(i) >= ARENA_BASE && Vpn(PageAddress(i)) == i
    ensures PageAddress(i) < PageAddress(i + 1)
  {
    assert PageAddress(i) - ARENA_BASE == i * PAGESIZE;
  }

  /** `vm_map(nullptr, _)` fails exactly when the arena is full or no swap
      slot is free, and then changes nothing; otherwise the process's next
      page is backed by the front free slot, starts as the pinned zero page,
      is the slot's only sharer, and nothing else changes. */
  lemma MapSwapEffect(s: PagerState)
    requires Mappable(s)
    ensures var (r, a) := MapSwapSpec(s);
      var cur := s.currentPid;
      var i := s.processes[cur].currentPosition;
      && (a.Some? <==> !ArenaFull(s) && s.freeSwap != [])
      && (a.None? ==> r == s)
      && (a.Some? ==>
            var sb := DiskBlock("", s.freeSwap[0]);
            && a.value == PageAddress(i)
            && cur in r.processes && i < ARENA_PAGES
            && r.processes[cur].currentPosition == i + 1
            && Ident(r.processes[cur].vpt[i]) == sb && !r.processes[cur].vpt[i].fileBacked
            && Pinned(BlockStatus(r.processes[cur].ppt[i], r.processes[cur].vpt[i]))
            && r.processes[cur].vpt[i].resident && r.processes[cur].ppt[i].ppage == 0
            && r.sharers[sb] == map[cur := [i]]
            && r.freeSwap == s.freeSwap[1..]
            && r.freeFrames == s.freeFrames && r.clock == s.clock && r.physmem == s.physmem
            && (forall q :: q in s.processes && q != cur ==> r.processes[q] == s.processes[q])
            && (forall v :: 0 <= v < ARENA_PAGES && v != i ==>
                  r.processes[cur].vpt[v] == s.processes[cur].vpt[v] &&
                  r.processes[cur].ppt[v] == s.processes[cur].ppt[v]))
  {
    if !ArenaFull(s) && s.freeSwap != [] {
      MapPreconditions(s, DiskBlock("", s.freeSwap[0]));
      MapSwapClosed(s);
    }
  }

  /** `r` is `s` after the file-backed tail of `vm_map`: the process's next
      page aliases `(name, block)`, is listed among the block's sharers and
      agrees with its canonical entry. A block in use keeps its canonical
      entry, so the new page shares its frame and protection; a new block
      starts cleared, not resident. Nothing else changes. */
  ghost predicate FileBound(s: PagerState, r: PagerState, name: string, block: nat)
    requires Tabled(s) && !ArenaFull(s)
  {
    var cur := s.currentPid;
    var i := s.processes[cur].currentPosition;
    var fb := DiskBlock(name, block);
    && cur in r.processes && i < ARENA_PAGES
    && |r.processes[cur].vpt| == ARENA_PAGES && |r.processes[cur].ppt| == ARENA_PAGES
    && r.processes[cur].currentPosition == i + 1
    && Ident(r.processes[cur].vpt[i]) == fb && r.processes[cur].vpt[i].fileBacked
    && IsSharer(r.sharers, fb, cur, i)
    && fb in r.status && Agrees(r.status[fb], r.processes[cur].vpt[i], r.processes[cur].ppt[i])
    && (fb in s.status ==> r.status == s.status)
    && (fb !in s.status ==> r.status == s.status[fb := DefaultStatus()])
    && r.freeSwap == s.freeSwap && r.freeFrames == s.freeFrames && r.clock == s.clock && r.physmem == s.physmem
    && (forall q :: q in s.processes && q != cur ==> q in r.processes && r.processes[q] == s.processes[q])
    && (forall v :: 0 <= v < ARENA_PAGES && v != i ==>
          r.processes[cur].vpt[v] == s.processes[cur].vpt[v] &&
          r.processes[cur].ppt[v] == s.processes[cur].ppt[v])
  }

  lemma JoinedBound(s: PagerState, name: string, block: nat)
    requires Tabled(s) && !ArenaFull(s) && DiskBlock(name, block) in s.status
    ensures FileBound(s, FileJoined(s, name, block), name, block)
  {
  }

  lemma OpenedBound(s: PagerState, name: string, block: nat)
    requires Tabled(s) && !ArenaFull(s) && DiskBlock(name, block) !in s.status
    ensures FileBound(s, FileOpened(s, name, block), name, block)
  {
  }

  lemma BindFileEffect(s: PagerState, name: string, block: nat)
    requires Mappable(s) && !ArenaFull(s) && name != ""
    ensures Tabled(s) && FileBound(s, BindFileSpec(s, name, block), name, block)
  {
    var fb := DiskBlock(name, block);
    MapPreconditions(s, fb);
    if fb in s.status {
      BindFileClosedKnown(s, name, block);
      JoinedBound(s, name, block);
    } else {
      BindFileClosedFresh(s, name, block);
      OpenedBound(s, name, block);
    }
  }

  /** Mapping a swap-backed page leaves the running process running. */
  lemma MapSwapRunning(s: PagerState)
    requires Running(s)
    ensures Running(MapSwapSpec(s).0)
  {
    MapSwapCoherent(s);
  }

  /** Binding a file-backed page leaves the running process running. */
  lemma BindFileRunning(s: PagerState, name: string, block: nat)
    requires Running(s) && !ArenaFull(s) && name != ""
    ensures Running(BindFileSpec(s, name, block))
  {
    BindFileCoherent(s, name, block);
  }
}
