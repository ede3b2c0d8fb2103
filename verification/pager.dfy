/**
 * The pager of Pager/vm_pager.cpp and Pager/vm_helper.cpp as a class whose
 * fields are the source's globals. Every entry point and helper is a method
 * that updates those fields the way the source does, loop by loop, and is
 * proved to leave `Snapshot()` equal to the specification function of its
 * module (pager_state.dfy, eviction.dfy, faults.dfy, mapping.dfy,
 * teardown.dfy), whose properties are proved there.
 */
module Pager {
  import opened Common
  import opened Structure
  import opened Queues
  import opened PagerState
  import opened Eviction
  import opened Faults
  import opened Mapping
  import opened Teardown
  import opened Lifecycle

  /** `Set_state` on page `v` of a process. */
  function SetEntry(p: Process, v: nat, st: PageState, ppage: nat, upd: bool): Process
    requires v < |p.vpt| && v < |p.ppt|
  {
    p.(vpt := p.vpt[v := SetVpte(st, p.vpt[v])], ppt := p.ppt[v := SetPte(st, ppage, upd, p.ppt[v])])
  }

  /** `Set_state` on a list of pages, one more page at a time; a page listed
      twice gets the same values twice. */
  lemma ApplyToSnoc(p: Process, vpns: seq<nat>, v: nat, st: PageState, ppage: nat, upd: bool)
    requires v < |p.vpt| && v < |p.ppt|
    ensures ApplyTo(p, vpns + [v], st, ppage, upd) == SetEntry(ApplyTo(p, vpns, st, ppage, upd), v, st, ppage, upd)
  {
    var a := ApplyTo(p, vpns + [v], st, ppage, upd);
    var b := SetEntry(ApplyTo(p, vpns, st, ppage, upd), v, st, ppage, upd);
    forall i | 0 <= i < |p.vpt| ensures a.vpt[i] == b.vpt[i] {
    }
    forall i | 0 <= i < |p.ppt| ensures a.ppt[i] == b.ppt[i] {
    }
  }

  lemma ApplyToNone(p: Process, st: PageState, ppage: nat, upd: bool)
    ensures ApplyTo(p, [], st, ppage, upd) == p
  {
    var a := ApplyTo(p, [], st, ppage, upd);
    assert a.vpt == p.vpt && a.ppt == p.ppt;
  }

  /** The inner loop of `Set_page_state` (Pager/vm_helper.cpp:20-23):
      `Set_state` on each page a sharer lists, in list order. */
  method ApplyPages(p: Process, vpns: seq<nat>, st: PageState, ppage: nat, upd: bool) returns (r: Process)
    requires forall v :: v in vpns ==> v < |p.vpt| && v < |p.ppt|
    ensures r == ApplyTo(p, vpns, st, ppage, upd)
  {
    r := p;
    for j := 0 to |vpns|
      invariant r == ApplyTo(p, vpns[..j], st, ppage, upd)
    {
      assert vpns[j] in vpns;
      ApplyToSnoc(p, vpns[..j], vpns[j], st, ppage, upd);
      assert vpns[..j + 1] == vpns[..j] + [vpns[j]];
      r := SetEntry(r, vpns[j], st, ppage, upd);
    }
    assert vpns[..|vpns|] == vpns;
  }

  /** One turn of the cycling loop of `RemoveFromClockQueue`: the front is
      popped and requeued unless it is the frame being removed. */
  lemma CycleStep(r: seq<nat>, k: nat, top: nat, p: nat)
    requires k < |r|
    ensures (r[k..] + [top] + Without(r[..k], p))[1..] + (if r[k] != p then [r[k]] else [])
      == r[k + 1..] + [top] + Without(r[..k + 1], p)
  {
    WithoutAppend(r[..k], [r[k]], p);
    assert r[..k + 1] == r[..k] + [r[k]];
    assert (r[k..] + [top] + Without(r[..k], p))[1..] == r[k + 1..] + [top] + Without(r[..k], p);
  }

  /** Page `i` may be released in state `s`: a frame it hands back is on a
      nonempty, duplicate-free clock. */
  ghost predicate ReleasableIn(s: PagerState, p: Process, i: nat)
    requires i < |p.vpt| && i < |p.ppt|
  {
    Rel(p, i) ==> s.clock != [] && NoDup(s.clock) && p.ppt[i].ppage in s.clock
  }

  /** The frames pages 0..k-1 of `p` hand back are distinct and on the
      duplicate-free clock of `s`. */
  ghost predicate FramesOnClock(s: PagerState, p: Process, k: nat)
    requires k <= |p.vpt| && k <= |p.ppt|
  {
    NoDup(s.clock) && NoDup(Frames(p, k)) && forall x :: x in Frames(p, k) ==> x in s.clock
  }

  lemma ReleaseReady(s: PagerState, p: Process, pid: int, i: nat, k: nat)
    requires i < k <= |p.vpt| && k <= |p.ppt|
    requires FramesOnClock(s, p, k)
    ensures ReleasableIn(DestroyLoop(s, p, pid, i), p, i)
  {
    if Rel(p, i) {
      DestroyReady(s, p, pid, i, k);
    }
  }

  /** In a duplicate-free queue the head does not occur again. */
  lemma HeadNotInTail(q: seq<nat>)
    requires q != [] && NoDup(q)
    ensures q[0] !in q[1..]
  {
    assert q == [q[0]] + q[1..];
    assert multiset(q) == multiset{q[0]} + multiset(q[1..]);
    assert multiset(q)[q[0]] <= 1;
  }

  /** Once every sharer of `db` has been visited, the process tables are
      those `Set_page_state` specifies. */
  lemma SharerPagesDone(procs0: Processes, procs: Processes, sh: Sharers, st: PageState, db: DiskBlock, ppage: nat, upd: bool)
    requires db in sh && procs.Keys == procs0.Keys
    requires forall q :: q in procs0 && q in sh[db] ==> procs[q] == ApplyTo(procs0[q], sh[db][q], st, ppage, upd)
    requires forall q :: q in procs0 && q !in sh[db] ==> procs[q] == procs0[q]
    ensures procs == SetSharers(procs0, sh, st, db, ppage, upd)
  {
    var spec := SetSharers(procs0, sh, st, db, ppage, upd);
    assert procs.Keys == spec.Keys;
    forall q | q in procs ensures procs[q] == spec[q] {
    }
  }

  /** Listing one more (block, process, page) keeps every sharer naming a
      slot of a live process's tables. */
  lemma AddSharerLive(sh: Sharers, procs: Processes, db: DiskBlock, pid: int, v: nat)
    requires SharersLive(sh, procs)
    requires pid in procs && v < |procs[pid].vpt| && v < |procs[pid].ppt|
    ensures SharersLive(AddSharer(sh, db, pid, v), procs)
  {
  }

  /** Arena address arithmetic: page `vpn`, offset `offset` is the address
      whose page number is `vpn` and whose page offset is `offset`. */
  lemma AddressSplit(vpn: nat, offset: nat)
    requires offset < PAGESIZE
    ensures Vpn(ARENA_BASE + vpn * PAGESIZE + offset) == vpn
    ensures (vpn * PAGESIZE + offset) % PAGESIZE == offset
  {
  }

  /** The page number and offset `Find_filename` starts from. */
  lemma PageFloor(x: nat)
    ensures 0 <= x - (x / PAGESIZE) * PAGESIZE < PAGESIZE
  {
  }

  /** Stepping to the next page. */
  lemma NextPage(vpn: nat)
    ensures (vpn + 1) * PAGESIZE == vpn * PAGESIZE + PAGESIZE
  {
  }

  /** Character j of `text` is what the current process read at `addr + j`
      in state `trace[j]`. */
  predicate ReadFrom(text: string, trace: seq<PagerState>, addr: nat) {
    |trace| == |text| &&
    forall j :: 0 <= j < |text| ==> Readable(trace[j], addr + j) && text[j] == ByteAt(trace[j], addr + j)
  }

  lemma ReadFromExtend(text: string, trace: seq<PagerState>, addr: nat, c: char, t: PagerState, a: nat)
    requires ReadFrom(text, trace, addr)
    requires a == addr + |text| && Readable(t, a) && c == ByteAt(t, a)
    ensures ReadFrom(text + [c], trace + [t], addr)
  {
  }

  /** The process running in `s0` still runs in `s`, every process keeps its
      arena cursor and the number of frames is unchanged. */
  ghost predicate Continues(s0: PagerState, s: PagerState) {
    && Running(s)
    && s.currentPid == s0.currentPid && s.processes.Keys == s0.processes.Keys
    && (forall pid :: pid in s0.processes ==> s.processes[pid].currentPosition == s0.processes[pid].currentPosition)
    && |s.physmem| == |s0.physmem|
  }

  lemma ContinuesTrans(s0: PagerState, s1: PagerState, s2: PagerState)
    requires Continues(s0, s1) && Continues(s1, s2)
    ensures Continues(s0, s2)
  {
  }

  /** The state of `Find_filename`'s loop: `text` has been read from
      `nameAddr` on, with no NUL before its last character, and (`vpn`,
      `offset`) is the next address to read. */
  ghost predicate Reading(nameAddr: nat, vpn: nat, offset: nat, text: string, trace: seq<PagerState>) {
    && offset <= PAGESIZE
    && vpn * PAGESIZE + offset == nameAddr - ARENA_BASE + |text|
    && ReadFrom(text, trace, nameAddr)
    && (text != [] ==> '\0' !in text[..|text| - 1])
  }

  /** In state `s` the current process may address `a`, and in state `t` it
      reads `c` there. */
  ghost predicate ReadsAt(s: PagerState, t: PagerState, a: nat, c: char) {
    && s.currentPid in s.processes && InArena(s, a)
    && Readable(t, a) && c == ByteAt(t, a)
  }

  /** Reading one more character (Pager/vm_helper.cpp:93-95) keeps the
      loop's state and moves one address on, still inside the arena of `s`. */
  lemma ReadingStep(s: PagerState, t: PagerState, nameAddr: nat, vpn: nat, offset: nat,
                    text: string, trace: seq<PagerState>, c: char)
    requires Reading(nameAddr, vpn, offset, text, trace) && offset < PAGESIZE
    requires text != [] ==> text[|text| - 1] != '\0'
    requires ReadsAt(s, t, ARENA_BASE + vpn * PAGESIZE + offset, c)
    ensures Reading(nameAddr, vpn, offset + 1, text + [c], trace + [t])
    ensures nameAddr + |text| < ArenaEnd(s)
  {
    ReadFromExtend(text, trace, nameAddr, c, t, ARENA_BASE + vpn * PAGESIZE + offset);
    if text != [] {
      assert text == text[..|text| - 1] + [text[|text| - 1]];
    }
    assert (text + [c])[..|text|] == text;
  }

  /** The first address past the current process's arena. */
  function ArenaEnd(s: PagerState): nat
    requires s.currentPid in s.processes
  {
    ARENA_BASE + s.processes[s.currentPid].currentPosition * PAGESIZE
  }

  /** The page and offset where reading a name at `nameAddr` starts: nothing
      has been read yet. */
  method Locate(nameAddr: nat) returns (vpn: nat, offset: nat)
    requires nameAddr >= ARENA_BASE
    ensures offset < PAGESIZE && Reading(nameAddr, vpn, offset, "", [])
  {
    PageFloor(nameAddr - ARENA_BASE);
    vpn := (nameAddr - ARENA_BASE) / PAGESIZE;
    offset := (nameAddr - ARENA_BASE) - vpn * PAGESIZE;
  }

  /** Moving to the next page keeps the loop's state. */
  lemma ReadingNextPage(nameAddr: nat, vpn: nat, text: string, trace: seq<PagerState>)
    requires Reading(nameAddr, vpn, PAGESIZE, text, trace)
    ensures Reading(nameAddr, vpn + 1, 0, text, trace)
  {
    NextPage(vpn);
  }

  /** A mapped page whose table lets the process read it names a frame
      holding the offset. */
  lemma ReadableWhenEnabled(s: PagerState, a: nat)
    requires Running(s) && Mapped(s, a) && s.processes[s.currentPid].ppt[Vpn(a)].readEnable
    ensures Readable(s, a)
  {
    assert WfProcess(s.processes[s.currentPid], |s.physmem|);
    assert WfMemory(s.physmem, s.disk);
  }

  /** Once the name is read, the file-backed branch of `vm_map` may bind the
      page the cursor stood on before the read, and the process stays running. */
  lemma ReadyToBind(s0: PagerState, mid: PagerState, name: string, block: nat)
    requires Running(s0) && Continues(s0, mid) && !ArenaFull(s0) && name != ""
    ensures Tabled(mid) && !ArenaFull(mid) && SharersLive(mid.sharers, mid.processes)
    ensures mid.processes[mid.currentPid].currentPosition == s0.processes[s0.currentPid].currentPosition
    ensures Running(BindFileSpec(mid, name, block))
  {
    assert WfProcess(mid.processes[mid.currentPid], |mid.physmem|);
    StructuralSharersLive(mid);
    BindFileRunning(mid, name, block);
  }

  /** The read fault of `Find_filename` (Pager/vm_helper.cpp:88-89) on a
      page the process may not read is one `vm_fault` accepts. */
  lemma ReadFaultAllowed(s: PagerState, a: nat)
    requires Running(s) && InArena(s, a) && |s.physmem| >= 2
    requires Mapped(s, a) && !s.processes[s.currentPid].ppt[Vpn(a)].readEnable
    ensures FaultAllowed(s, a, false)
  {
    FramesAvailable(s);
  }

  /** The read fault keeps the process running and, on success, leaves the
      address readable. */
  lemma ReadFault(s: PagerState, a: nat, writeOk: bool, readOk: bool)
    requires Running(s) && InArena(s, a) && FaultAllowed(s, a, false)
    ensures var (r, res) := FaultSpec(s, a, false, writeOk, readOk);
      Continues(s, r) && (res == 0 ==> Readable(r, a))
  {
    VpnInRange(s, a);
    var (r, res) := FaultSpec(s, a, false, writeOk, readOk);
    FaultKeepsRunning(s, a, false, writeOk, readOk);
    FaultShape(s, a, false, writeOk, readOk);
    FaultResolves(s, a, false, writeOk, readOk);
    if res == 0 {
      ReadableWhenEnabled(r, a);
    }
  }

  /** The current process's table lets it read `a`. */
  ghost predicate ReadEnabled(s: PagerState, a: nat) {
    && a >= ARENA_BASE && s.currentPid in s.processes
    && Vpn(a) < |s.processes[s.currentPid].ppt|
    && s.processes[s.currentPid].ppt[Vpn(a)].readEnable
  }

  /** The read-enable test and fault of `Find_filename`
      (Pager/vm_helper.cpp:88-92) given the storage outcomes: a readable page
      is left alone; otherwise `vm_fault(a, false)` runs, and the read goes
      on iff it returns 0. */
  ghost function ReadFaultSpec(s: PagerState, a: nat, writeOk: bool, readOk: bool): (PagerState, bool)
    requires Running(s) && InArena(s, a) && |s.physmem| >= 2
  {
    if ReadEnabled(s, a) then (s, true)
    else
      VpnInRange(s, a);
      ReadFaultAllowed(s, a);
      var (r, res) := FaultSpec(s, a, false, writeOk, readOk);
      (r, res == 0)
  }

  /** A read of `a` attempted in state `s` leaves state `t` and goes on
      exactly when `ok`. */
  ghost predicate ReadAttempt(s: PagerState, a: nat, writeOk: bool, readOk: bool, t: PagerState, ok: bool) {
    && Running(s) && InArena(s, a) && |s.physmem| >= 2
    && (t, ok) == ReadFaultSpec(s, a, writeOk, readOk)
  }

  /** Whatever the fault does, the process keeps running, and a read that
      goes on finds its address readable. */
  lemma ReadFaultSettles(s: PagerState, a: nat, writeOk: bool, readOk: bool)
    requires Running(s) && InArena(s, a) && |s.physmem| >= 2
    ensures var (r, ok) := ReadFaultSpec(s, a, writeOk, readOk);
      Continues(s, r) && (ok ==> Readable(r, a))
  {
    ReadFaultOutcome(s, a, writeOk, readOk);
  }

  /** The read goes on exactly when the page was readable or the fault
      returned 0; then the address is readable, and otherwise the fault
      returned -1. Either way the process keeps running. */
  lemma ReadFaultOutcome(s: PagerState, a: nat, writeOk: bool, readOk: bool)
    requires Running(s) && InArena(s, a) && |s.physmem| >= 2
    ensures var (r, ok) := ReadFaultSpec(s, a, writeOk, readOk);
      && Continues(s, r)
      && (ok ==> Readable(r, a))
      && (ReadEnabled(s, a) ==> ok && r == s)
      && (!ReadEnabled(s, a) ==> FaultAllowed(s, a, false) && (ok <==> FaultSpec(s, a, false, writeOk, readOk).1 == 0)
                                 && (!ok ==> FaultSpec(s, a, false, writeOk, readOk).1 == -1))
  {
    VpnInRange(s, a);
    if ReadEnabled(s, a) {
      ReadableWhenEnabled(s, a);
    } else {
      ReadFaultAllowed(s, a);
      ReadFault(s, a, writeOk, readOk);
      FaultResolves(s, a, false, writeOk, readOk);
    }
  }

  /** What `Find_filename` went through: the characters `text` read, with
      the states `trace` they were read in and the storage outcomes
      `outcomes` of the fault behind each read, the state `last` before the
      final attempt, and the storage outcomes of that attempt's fault. */
  datatype Scan = Scan(text: string, trace: seq<PagerState>, outcomes: seq<(bool, bool)>,
                       last: PagerState, writeOk: bool, readOk: bool)

  /** `text` is a name read from `nameAddr` on: it ends with its NUL, holds
      no other, and character j is what the process read at `nameAddr + j`
      in `trace[j]`. */
  ghost predicate NameRead(text: string, trace: seq<PagerState>, nameAddr: nat) {
    && |text| >= 1 && text[|text| - 1] == '\0'
    && '\0' !in text[..|text| - 1]
    && ReadFrom(text, trace, nameAddr)
  }

  /** The address of character `k` of a name stored at `nameAddr`. */
  function NameByte(nameAddr: nat, k: nat): nat {
    nameAddr + k
  }

  /** The state read `j` of a scan started in `s0` began in: `s0` for the
      first, the state the previous read left otherwise. */
  function Before(s0: PagerState, trace: seq<PagerState>, j: nat): PagerState
    requires j <= |trace|
  {
    if j == 0 then s0 else trace[j - 1]
  }

  /** Read `j` of the scan: attempted in the state the previous one left,
      at the next character's address, it went on and left `trace[j]`. */
  ghost predicate StepRead(s0: PagerState, nameAddr: nat, trace: seq<PagerState>, outcomes: seq<(bool, bool)>, j: nat) {
    && j < |trace| && j < |outcomes|
    && ReadAttempt(Before(s0, trace, j), NameByte(nameAddr, j), outcomes[j].0, outcomes[j].1, trace[j], true)
  }

  /** Every read of a scan started in `s0` follows on from the one before. */
  ghost predicate Chained(s0: PagerState, nameAddr: nat, trace: seq<PagerState>, outcomes: seq<(bool, bool)>) {
    && |outcomes| == |trace|
    && forall j: nat {:trigger StepRead(s0, nameAddr, trace, outcomes, j)} ::
         j < |trace| ==> StepRead(s0, nameAddr, trace, outcomes, j)
  }

  /** A read that follows on from the last one extends the chain. */
  lemma ChainedExtend(s0: PagerState, nameAddr: nat, trace: seq<PagerState>, outcomes: seq<(bool, bool)>,
                      writeOk: bool, readOk: bool, t: PagerState)
    requires Chained(s0, nameAddr, trace, outcomes)
    requires ReadAttempt(Before(s0, trace, |trace|), NameByte(nameAddr, |trace|), writeOk, readOk, t, true)
    ensures Chained(s0, nameAddr, trace + [t], outcomes + [(writeOk, readOk)])
  {
    var trace', outcomes' := trace + [t], outcomes + [(writeOk, readOk)];
    forall j: nat | j < |trace'|
      ensures StepRead(s0, nameAddr, trace', outcomes', j)
    {
      if j < |trace| {
        assert StepRead(s0, nameAddr, trace, outcomes, j);
        assert Before(s0, trace', j) == Before(s0, trace, j);
      } else {
        assert Before(s0, trace', j) == Before(s0, trace, |trace|);
      }
    }
  }

  /** A read from a page the process's table already lets it read runs no
      fault and changes nothing (Pager/vm_helper.cpp:88). */
  lemma StepUnfaulted(s0: PagerState, nameAddr: nat, trace: seq<PagerState>, outcomes: seq<(bool, bool)>, j: nat)
    requires Chained(s0, nameAddr, trace, outcomes) && j < |trace|
    requires ReadEnabled(Before(s0, trace, j), NameByte(nameAddr, j))
    ensures trace[j] == Before(s0, trace, j)
  {
    assert StepRead(s0, nameAddr, trace, outcomes, j);
  }

  /** The first `n` characters of a name, when the process can already read
      each of them, are read straight from memory as it stood when the scan
      began, and reading them changes nothing. */
  lemma {:induction false} NameFromMemory(s0: PagerState, nameAddr: nat, text: string, trace: seq<PagerState>,
                                          outcomes: seq<(bool, bool)>, n: nat)
    requires Chained(s0, nameAddr, trace, outcomes) && ReadFrom(text, trace, nameAddr) && n <= |trace|
    requires forall k: nat :: k < n ==> ReadEnabled(s0, NameByte(nameAddr, k))
    ensures forall j: nat :: j < n ==>
      trace[j] == s0 && Readable(s0, nameAddr + j) && text[j] == ByteAt(s0, nameAddr + j)
  {
    if n > 0 {
      NameFromMemory(s0, nameAddr, text, trace, outcomes, n - 1);
      assert Before(s0, trace, n - 1) == s0;
      assert ReadEnabled(s0, NameByte(nameAddr, n - 1));
      StepUnfaulted(s0, nameAddr, trace, outcomes, n - 1);
      forall j: nat | j < n
        ensures trace[j] == s0 && Readable(s0, nameAddr + j) && text[j] == ByteAt(s0, nameAddr + j)
      {
        assert Readable(trace[j], nameAddr + j) && text[j] == ByteAt(trace[j], nameAddr + j);
      }
    }
  }

  /** Where `Find_filename`, started in `s0`, throws and leaves state `s`:
      the characters read so far hold no NUL, and the next address is past
      the mapped arena (Pager/vm_helper.cpp:85-87) or its read fault
      returned -1 (Pager/vm_helper.cpp:88-91). */
  ghost predicate ScanFails(s0: PagerState, nameAddr: nat, scan: Scan, s: PagerState) {
    && Running(s0) && |s0.physmem| >= 2 && nameAddr >= ARENA_BASE
    && '\0' !in scan.text
    && ReadFrom(scan.text, scan.trace, nameAddr)
    && Chained(s0, nameAddr, scan.trace, scan.outcomes) && scan.last == Before(s0, scan.trace, |scan.trace|)
    && Continues(s0, scan.last)
    && if NameByte(nameAddr, |scan.text|) >= ArenaEnd(s0) then s == scan.last
       else ReadAttempt(scan.last, NameByte(nameAddr, |scan.text|), scan.writeOk, scan.readOk, s, false)
  }

  lemma ArenaEndKept(s0: PagerState, s: PagerState)
    requires Continues(s0, s)
    ensures s0.currentPid in s0.processes && ArenaEnd(s) == ArenaEnd(s0)
  {
  }

  /** The outcome of the file-backed branch of `vm_map` started in `s0`
      (Pager/vm_pager.cpp:138-142, 165-200), ending in `s` and returning
      `addr`:
      - a full arena or a name address outside the mapped arena returns
        nullptr and changes nothing;
      - otherwise the name is read from memory; where that throws, nullptr
        is returned, for the reason `ScanFails` gives;
      - on success the name read (NUL included) names the block: the page
        under the cursor, which rises by one, is bound to it, in the state
        `scan.last` the read left, and its address is returned. */
  ghost predicate FileMapped(s0: PagerState, nameAddr: nat, block: nat, addr: Option<nat>, scan: Scan, s: PagerState)
    requires Running(s0)
  {
    var i := s0.processes[s0.currentPid].currentPosition;
    && (ArenaFull(s0) || !NameInArena(s0, nameAddr) ==> addr == None && s == s0)
    && (!ArenaFull(s0) && NameInArena(s0, nameAddr) && addr.None? ==> ScanFails(s0, nameAddr, scan, s))
    && (addr.Some? ==>
          && NameRead(scan.text, scan.trace, nameAddr)
          && Chained(s0, nameAddr, scan.trace, scan.outcomes) && scan.last == Before(s0, scan.trace, |scan.trace|)
          && Continues(s0, scan.last)
          && Tabled(scan.last) && !ArenaFull(scan.last)
          && s == BindFileSpec(scan.last, scan.text, block)
          && FileBound(scan.last, s, scan.text, block)
          && s.currentPid == s0.currentPid
          && s.processes[s.currentPid].currentPosition == i + 1
          && addr == Some(PageAddress(i)))
  }

  /** A turn of `Find_filename`'s loop that fails ends the scan as
      `ScanFails` describes. */
  lemma ScanStopped(s0: PagerState, nameAddr: nat, text: string, trace: seq<PagerState>, outcomes: seq<(bool, bool)>,
                    last: PagerState, a: nat, writeOk: bool, readOk: bool, s: PagerState, ok: bool)
    requires Running(s0) && |s0.physmem| >= 2 && nameAddr >= ARENA_BASE
    requires '\0' !in text && ReadFrom(text, trace, nameAddr)
    requires Chained(s0, nameAddr, trace, outcomes) && last == Before(s0, trace, |trace|)
    requires Continues(s0, last) && !ok && a == NameByte(nameAddr, |text|)
    requires a >= ArenaEnd(s0) ==> s == last
    requires a < ArenaEnd(s0) ==> ReadAttempt(last, a, writeOk, readOk, s, ok)
    ensures ScanFails(s0, nameAddr, Scan(text, trace, outcomes, last, writeOk, readOk), s)
  {
    ArenaEndKept(s0, last);
  }

  /** A full arena or a name address outside the mapped arena: nullptr. */
  lemma MapFileRefused(s0: PagerState, nameAddr: nat, block: nat, scan: Scan)
    requires Running(s0)
    requires ArenaFull(s0) || !NameInArena(s0, nameAddr)
    ensures FileMapped(s0, nameAddr, block, None, scan, s0)
  {
  }

  /** A name that cannot be read: nullptr. */
  lemma MapFileUnnamed(s0: PagerState, nameAddr: nat, block: nat, scan: Scan, s: PagerState)
    requires Running(s0) && !ArenaFull(s0) && NameInArena(s0, nameAddr)
    requires ScanFails(s0, nameAddr, scan, s)
    ensures FileMapped(s0, nameAddr, block, None, scan, s)
  {
  }

  /** A name read: the page under the cursor is bound to it. */
  lemma MapFileBound(s0: PagerState, nameAddr: nat, block: nat, scan: Scan)
    requires Running(s0) && !ArenaFull(s0) && NameInArena(s0, nameAddr)
    requires NameRead(scan.text, scan.trace, nameAddr) && Continues(s0, scan.last)
    requires Chained(s0, nameAddr, scan.trace, scan.outcomes) && scan.last == Before(s0, scan.trace, |scan.trace|)
    ensures Tabled(scan.last) && !ArenaFull(scan.last)
    ensures FileMapped(s0, nameAddr, block, Some(PageAddress(s0.processes[s0.currentPid].currentPosition)), scan,
                       BindFileSpec(scan.last, scan.text, block))
  {
    ReadyToBind(s0, scan.last, scan.text, block);
    BindFileEffect(scan.last, scan.text, block);
  }

  /** The first character of a name the process can already read is read
      from memory as it stood when the scan began. */
  lemma FirstFromMemory(s0: PagerState, nameAddr: nat, text: string, trace: seq<PagerState>, outcomes: seq<(bool, bool)>)
    requires Chained(s0, nameAddr, trace, outcomes) && ReadFrom(text, trace, nameAddr) && |trace| >= 1
    requires ReadEnabled(s0, nameAddr)
    ensures trace[0] == s0 && Readable(s0, nameAddr) && text[0] == ByteAt(s0, nameAddr)
  {
    assert NameByte(nameAddr, 0) == nameAddr;
    StepUnfaulted(s0, nameAddr, trace, outcomes, 0);
  }

  /** A read from a page the process can already read goes on. */
  lemma NoFailedRead(s: PagerState, a: nat, writeOk: bool, readOk: bool, t: PagerState)
    requires ReadEnabled(s, a)
    ensures !ReadAttempt(s, a, writeOk, readOk, t, false)
  {
  }

  /** `Find_filename` does not throw for a name whose first character is a
      NUL the process can already read. */
  lemma NulNotMissed(s0: PagerState, nameAddr: nat, scan: Scan, s: PagerState)
    requires Running(s0) && InArena(s0, nameAddr)
    requires ReadEnabled(s0, nameAddr) && Readable(s0, nameAddr) && ByteAt(s0, nameAddr) == '\0'
    ensures !ScanFails(s0, nameAddr, scan, s)
  {
    assert NameByte(nameAddr, 0) == nameAddr;
    NoFailedRead(s0, NameByte(nameAddr, 0), scan.writeOk, scan.readOk, s);
    if scan.text != [] && Chained(s0, nameAddr, scan.trace, scan.outcomes) && ReadFrom(scan.text, scan.trace, nameAddr) {
      FirstFromMemory(s0, nameAddr, scan.text, scan.trace, scan.outcomes);
    }
  }

  /** Such a NUL is then the whole name, read without a fault. */
  lemma NulNameRead(s0: PagerState, nameAddr: nat, scan: Scan)
    requires ReadEnabled(s0, nameAddr) && Readable(s0, nameAddr) && ByteAt(s0, nameAddr) == '\0'
    requires NameRead(scan.text, scan.trace, nameAddr)
    requires Chained(s0, nameAddr, scan.trace, scan.outcomes) && scan.last == Before(s0, scan.trace, |scan.trace|)
    ensures scan.text == "\0" && scan.trace == [s0] && scan.last == s0
  {
    FirstFromMemory(s0, nameAddr, scan.text, scan.trace, scan.outcomes);
    if |scan.text| > 1 {
      assert false;
    }
  }

  /** The file branch of `vm_map` therefore binds the page to the name "\0"
      for such a NUL, and does not return nullptr. */
  lemma MapFileReadsNul(s0: PagerState, nameAddr: nat, block: nat, addr: Option<nat>, scan: Scan, s: PagerState)
    requires Running(s0) && !ArenaFull(s0) && NameInArena(s0, nameAddr)
    requires ReadEnabled(s0, nameAddr) && Readable(s0, nameAddr) && ByteAt(s0, nameAddr) == '\0'
    requires FileMapped(s0, nameAddr, block, addr, scan, s)
    ensures addr.Some? && scan.text == "\0" && scan.trace == [s0] && scan.last == s0
  {
    NulNotMissed(s0, nameAddr, scan, s);
    NulNameRead(s0, nameAddr, scan);
  }

  /** The loop has read no NUL yet. */
  lemma NoNulYet(text: string)
    requires text != [] ==> '\0' !in text[..|text| - 1] && text[|text| - 1] != '\0'
    ensures '\0' !in text
  {
    if text != [] {
      assert text == text[..|text| - 1] + [text[|text| - 1]];
    }
  }

  class Manager {
    /** `current_pid` */
    var currentPid: int
    /** The process whose physical table `page_table_base_register` points at. */
    var ptbr: Option<int>
    /** `process_map` */
    var processes: map<int, Process>
    /** `ppage_to_block_map` */
    var owner: map<nat, DiskBlock>
    /** `share_map` */
    var sharers: map<DiskBlock, map<int, seq<nat>>>
    /** `block_status_map` */
    var status: map<DiskBlock, BlockStatus>
    /** `free_swap_blocks`, front at index 0 */
    var freeSwap: seq<nat>
    /** `free_physical_pages`, front at index 0 */
    var freeFrames: seq<nat>
    /** `clock_queue`, front at index 0 */
    var clock: seq<nat>
    /** `vm_physmem`, one page per frame */
    var physmem: seq<Page>
    /** What `file_read` and `file_write` reach. */
    var disk: map<StorageKey, Page>

    ghost function Snapshot(): PagerState
      reads this
    {
      PagerState(currentPid, ptbr, processes, owner, sharers, status, freeSwap, freeFrames, clock, physmem, disk)
    }

    /** `vm_init(memoryPages, swapBlocks)` (Pager/vm_pager.cpp:23-33) over
        the physical memory `mem` and the storage `storage` the pager is
        given: the two fill loops, then frame 0 zeroed. */
    constructor Init(memoryPages: nat, swapBlocks: nat, mem: seq<Page>, storage: map<StorageKey, Page>)
      requires |mem| == memoryPages >= 1
      ensures Snapshot() == InitSpec(memoryPages, swapBlocks, mem, storage)
    {
      var frames: seq<nat> := [];
      for i := 1 to memoryPages
        invariant frames == Range(1, i)
      {
        frames := frames + [i];
      }
      var slots: seq<nat> := [];
      for i := 0 to swapBlocks
        invariant slots == Range(0, i)
      {
        slots := slots + [i];
      }
      currentPid := 0;
      ptbr := None;
      processes := map[];
      owner := map[];
      sharers := map[];
      status := map[];
      freeSwap := slots;
      freeFrames := frames;
      clock := [];
      physmem := mem[0 := ZeroPage()];
      disk := storage;
    }

    /** `vm_create(parent, child)` (Pager/vm_pager.cpp:35-50): a physical
        table cleared entry by entry, a default virtual table, the cursor at
        0, registered under `child`. */
    method Create(parent: int, child: int) returns (r: int)
      modifies this
      ensures r == 0
      ensures Snapshot() == CreateSpec(old(Snapshot()), child)
    {
      var ppt: seq<PageTableEntry> := [];
      for i := 0 to ARENA_PAGES
        invariant ppt == seq(i, _ => ClearedEntry())
      {
        ppt := ppt + [PageTableEntry(0, false, false)];
      }
      var vpt := seq(ARENA_PAGES, _ => DefaultVirtualEntry());
      processes := processes[child := Process(vpt, ppt, 0)];
      return 0;
    }

    /** `vm_switch(pid)` (Pager/vm_pager.cpp:52-58). */
    method Switch(pid: int)
      modifies this
      requires pid != currentPid ==> pid in processes
      ensures Snapshot() == SwitchSpec(old(Snapshot()), pid)
    {
      if pid == currentPid {
        return;
      }
      currentPid := pid;
      ptbr := Some(pid);
    }

    /** `vm_destroy()` (Pager/vm_pager.cpp:60-85): page by page up to the
        cursor, the process leaves the block's sharers and a swap-backed page
        hands back its slot and, when resident on a real frame, the frame;
        then the process is erased. A missing process is created empty by
        `operator[]` and erased again. */
    method Destroy()
      modifies this
      requires Coherent(Snapshot())
      ensures Snapshot() == DestroySpec(old(Snapshot()))
    {
      var pid := currentPid;
      var registered := pid in processes;
      var p := if registered then processes[pid] else FreshProcess();
      PartitionNoDup(freeFrames, clock, |physmem|);
      if pid in processes {
        DestroyFrames(Snapshot());
      } else {
        assert Frames(p, 0) == [];
      }
      ReleasePages(p, pid, p.currentPosition);
      processes := processes - {pid};
      if registered {
        ptbr := None;
      }
    }

    /** The loop of `vm_destroy` over pages 0..count-1 of process `pid`,
        whose tables are `p` (Pager/vm_pager.cpp:66-81). */
    method ReleasePages(p: Process, pid: int, count: nat)
      modifies this
      requires count <= |p.vpt| && count <= |p.ppt|
      requires FramesOnClock(Snapshot(), p, count)
      ensures Snapshot() == DestroyLoop(old(Snapshot()), p, pid, count)
    {
      ghost var s0 := Snapshot();
      for i := 0 to count
        invariant Snapshot() == DestroyLoop(s0, p, pid, i)
      {
        ReleaseNext(p, pid, i, count, s0);
      }
    }

    /** Page `i` of the loop of `vm_destroy`, after pages 0..i-1 of the
        loop that started in state `s0`. */
    method ReleaseNext(p: Process, pid: int, i: nat, count: nat, ghost s0: PagerState)
      modifies this
      requires i < count <= |p.vpt| && count <= |p.ppt| && FramesOnClock(s0, p, count)
      requires Snapshot() == DestroyLoop(s0, p, pid, i)
      ensures Snapshot() == DestroyLoop(s0, p, pid, i + 1)
    {
      ReleaseReady(s0, p, pid, i, count);
      ReleasePage(p, pid, i);
    }

    /** One iteration of the loop of `vm_destroy` (Pager/vm_pager.cpp:67-80)
        for page `i` of process `pid`, whose tables are `p`. */
    method ReleasePage(p: Process, pid: int, i: nat)
      modifies this
      requires i < |p.vpt| && i < |p.ppt|
      requires ReleasableIn(Snapshot(), p, i)
      ensures Snapshot() == DestroyStep(old(Snapshot()), p, pid, i)
    {
      var e := p.vpt[i];
      var db := Ident(e);
      var users := if db in sharers then sharers[db] else map[];
      if pid in users {
        sharers := sharers[db := users - {pid}];
      } else {
        assert users - {pid} == users;
        sharers := sharers[db := users];
      }
      if !e.fileBacked {
        freeSwap := freeSwap + [e.block];
        var f := p.ppt[i].ppage;
        if e.resident && f != 0 {
          assert Rel(p, i);
          freeFrames := freeFrames + [f];
          RemoveFromClockIsWithout(clock, f);
          RemoveFromClockQueue(f);
        }
      }
    }

    /** `Set_page_state` (Pager/vm_helper.cpp:16-25): the canonical entry,
        then every page of every sharer. */
    method SetPageState(st: PageState, db: DiskBlock, ppage: nat, upd: bool)
      modifies this
      requires SharersLive(sharers, processes)
      ensures Snapshot() == SetPageStateSpec(old(Snapshot()), st, db, ppage, upd)
    {
      var cs := if db in status then status[db] else DefaultStatus();
      status := status[db := BlockStatus(SetPte(st, ppage, upd, cs.ptes), SetVpte(st, cs.vptes))];
      if db in sharers {
        SetSharerPages(st, db, ppage, upd);
      } else {
        assert SetSharers(processes, sharers, st, db, ppage, upd) == processes;
      }
    }

    /** The loops of `Set_page_state` over `share_map[db]`
        (Pager/vm_helper.cpp:19-24), one process at a time. */
    method SetSharerPages(st: PageState, db: DiskBlock, ppage: nat, upd: bool)
      modifies this
      requires db in sharers && SharersLive(sharers, processes)
      ensures Snapshot() == old(Snapshot()).(processes := SetSharers(old(processes), sharers, st, db, ppage, upd))
    {
      var users := sharers[db];
      var pending := users.Keys;
      ghost var procs0 := processes;
      ghost var s1 := Snapshot();
      while pending != {}
        invariant pending <= users.Keys
        invariant Snapshot() == s1.(processes := processes)
        invariant processes.Keys == procs0.Keys
        invariant forall q :: q in procs0 && q in users && q !in pending ==>
          processes[q] == ApplyTo(procs0[q], users[q], st, ppage, upd)
        invariant forall q :: q in procs0 && (q !in users || q in pending) ==> processes[q] == procs0[q]
        decreases pending
      {
        if forall q :: q !in pending {
          assert false;
        }
        var pid :| pid in pending;
        pending := pending - {pid};
        var vpns := users[pid];
        if vpns == [] {
          if pid in procs0 {
            ApplyToNone(procs0[pid], st, ppage, upd);
          }
        } else {
          assert IsSharer(sharers, db, pid, vpns[0]);
          forall v | v in vpns ensures v < |procs0[pid].vpt| && v < |procs0[pid].ppt| {
            assert IsSharer(sharers, db, pid, v);
          }
          var q := ApplyPages(processes[pid], vpns, st, ppage, upd);
          processes := processes[pid := q];
        }
      }
      SharerPagesDone(procs0, processes, sharers, st, db, ppage, upd);
    }

    /** `RemoveFromClockQueue` (Pager/vm_helper.cpp:101-120): the head is
        popped if it is `p`; otherwise it is requeued and the queue cycles
        until it is back at the front, dropping `p` on the way. */
    method RemoveFromClockQueue(p: nat)
      modifies this
      requires clock != [] && NoDup(clock)
      ensures clock == RemoveFromClock(old(clock), p)
      ensures Snapshot() == old(Snapshot()).(clock := clock)
    {
      var top := clock[0];
      if top == p {
        clock := clock[1..];
      } else {
        HeadNotInTail(clock);
        clock := clock[1..] + [top];
        CycleClock(top, p);
      }
    }

    /** The cycling loop of `RemoveFromClockQueue`
        (Pager/vm_helper.cpp:110-118) once the old head `top` has been
        requeued behind the rest `r` of the queue. */
    method CycleClock(top: nat, p: nat)
      modifies this
      requires |clock| >= 1 && clock[|clock| - 1] == top && top !in clock[..|clock| - 1]
      ensures clock == [top] + Without(old(clock)[..|old(clock)| - 1], p)
      ensures Snapshot() == old(Snapshot()).(clock := clock)
    {
      ghost var r := clock[..|clock| - 1];
      assert clock == r + [top];
      var t := clock[0];
      ghost var k := 0;
      ghost var s1 := Snapshot();
      while t != top
        invariant 0 <= k <= |r|
        invariant Snapshot() == s1.(clock := clock)
        invariant clock == r[k..] + [top] + Without(r[..k], p)
        invariant t == clock[0]
        invariant t == top <==> k == |r|
        decreases |r| - k
      {
        CycleStep(r, k, top, p);
        clock := clock[1..];
        if t != p {
          clock := clock + [t];
        }
        k := k + 1;
        t := clock[0];
      }
      assert r[..k] == r;
    }

    /** `file_write` of frame `h` to the storage of `db`; `ok` is whether
        the storage accepted it. */
    method FileWrite(db: DiskBlock, h: nat) returns (ok: bool)
      modifies this
      requires h < |physmem|
      ensures ok ==> Snapshot() == old(Snapshot()).(disk := old(disk)[StorageKeyOf(db) := old(physmem)[h]])
      ensures !ok ==> Snapshot() == old(Snapshot())
    {
      ok :| true;
      if ok {
        disk := disk[StorageKeyOf(db) := physmem[h]];
      }
    }

    /** `file_read` of the storage of `db` into frame `f`; `ok` is whether
        the read succeeded. */
    method FileRead(db: DiskBlock, f: nat) returns (ok: bool)
      modifies this
      requires f < |physmem|
      ensures ok ==> Snapshot() == old(Snapshot()).(physmem := old(physmem)[f := ReadPage(old(disk), db)])
      ensures !ok ==> Snapshot() == old(Snapshot())
    {
      ok :| true;
      if ok {
        physmem := physmem[f := ReadPage(disk, db)];
      }
    }

    /** `Find_place_in_PM(replace)` (Pager/vm_helper.cpp:27-70) with the
        victim requeued when its write-back fails: a free frame if there is
        one, else the clock sweep clears referenced heads until an
        unreferenced one is found, writes it back when dirty and hands it
        to `replace`. `f` is None where the source throws; `writeOk` is the
        outcome of the write-back. */
    method FindPlace(replace: DiskBlock) returns (f: Option<nat>, ghost writeOk: bool)
      modifies this
      requires Structural(Snapshot()) && (freeFrames != [] || clock != [])
      ensures (Snapshot(), f) == FindPlaceSpec(old(Snapshot()), replace, writeOk)
    {
      if freeFrames != [] {
        var t := freeFrames[0];
        freeFrames := freeFrames[1..];
        owner := owner[t := replace];
        clock := clock + [t];
        return Some(t), true;
      }
      ghost var s0 := Snapshot();
      while true
        invariant Structural(Snapshot()) && clock != [] && freeFrames == []
        invariant Sweep(Snapshot()) == Sweep(s0)
        decreases RefFrames(Snapshot())
      {
        ghost var s := Snapshot();
        HeadFrame(s);
        var h := clock[0];
        clock := clock[1..];
        var tb := owner[h];
        var st := if tb in status then status[tb] else DefaultStatus();
        if st.vptes.reference {
          ClearReferenced(h, tb, s);
          ClearHeadStructural(s);
          ClearHeadProgress(s);
        } else {
          assert s == Sweep(s0);
          f, writeOk := EvictPopped(h, tb, replace, s);
          return;
        }
      }
    }

    /** The referenced branch of the clock sweep (Pager/vm_helper.cpp:49-54):
        the popped head `h`, whose block is `tb`, loses its reference and
        access and is requeued. `s` is the state before the pop. */
    method ClearReferenced(h: nat, tb: DiskBlock, ghost s: PagerState)
      modifies this
      requires Structural(s) && s.clock != [] && h == s.clock[0] && h in s.owner && tb == HeadBlock(s)
      requires Snapshot() == s.(clock := s.clock[1..])
      ensures Snapshot() == ClearHead(s)
    {
      StructuralSharersLive(s);
      var st := if tb in status then status[tb] else DefaultStatus();
      SetPageState(Unreferenced(st), tb, 0, false);
      clock := clock + [h];
    }

    /** The unreferenced branch of the clock sweep
        (Pager/vm_helper.cpp:55-66), with the victim requeued when its
        write-back fails: the popped head `h`, whose block is `tb`, is written
        back when dirty, its block evicted and the frame handed to `replace`.
        `s` is the state before the pop. */
    method EvictPopped(h: nat, tb: DiskBlock, replace: DiskBlock, ghost s: PagerState) returns (f: Option<nat>, ghost writeOk: bool)
      modifies this
      requires Structural(s) && s.clock != [] && h == s.clock[0] && h in s.owner && tb == HeadBlock(s)
      requires Snapshot() == s.(clock := s.clock[1..])
      ensures (Snapshot(), f) == Evict(s, replace, writeOk)
    {
      HeadFrame(s);
      StructuralSharersLive(s);
      var st := if tb in status then status[tb] else DefaultStatus();
      if st.vptes.dirty {
        var ok := FileWrite(tb, h);
        if !ok {
          clock := clock + [h];
          return None, false;
        }
      }
      SetPageState(Evicted, tb, 0, false);
      owner := owner[h := replace];
      clock := clock + [h];
      return Some(h), true;
    }

    /** `vm_fault(addr, write)` (Pager/vm_pager.cpp:87-134): an address
        outside the mapped arena fails; a pinned or non-resident page gets a
        frame (zeroed for copy-on-write, read from storage otherwise, the
        frame handed back when the read fails) and is published readable,
        referenced and, on a write, writable and dirty; a resident page only
        gets its flags back. `writeOk` and `readOk` are the outcomes of the
        storage calls. */
    method Fault(addr: nat, write: bool) returns (r: int, ghost writeOk: bool, ghost readOk: bool)
      modifies this
      requires Running(Snapshot()) && FaultAllowed(Snapshot(), addr, write)
      ensures (Snapshot(), r) == FaultSpec(old(Snapshot()), addr, write, writeOk, readOk)
    {
      writeOk, readOk := true, true;
      var position := processes[currentPid].currentPosition;
      if addr < ARENA_BASE || addr >= ARENA_BASE + position * PAGESIZE {
        return -1, writeOk, readOk;
      }
      ghost var s := Snapshot();
      VpnInRange(s, addr);
      StructuralSharersLive(s);
      var vpn := (addr - ARENA_BASE) / PAGESIZE;
      var ve := processes[currentPid].vpt[vpn];
      var pe := processes[currentPid].ppt[vpn];
      var db := Ident(ve);
      if (pe.readEnable && !pe.writeEnable && !ve.reference) || !ve.resident {
        var found;
        found, writeOk := FindPlace(db);
        if found.None? {
          return -1, writeOk, readOk;
        }
        FindPlaceStructural(s, db, writeOk);
        ghost var s1 := Snapshot();
        StructuralSharersLive(s1);
        PartitionNoDup(s1.freeFrames, s1.clock, |s1.physmem|);
        var f := found.value;
        var ok;
        ok, readOk := FillFrame(db, f, ve.resident);
        if !ok {
          return -1, writeOk, readOk;
        }
        SetPageState(PageState(true, write, true, true, write), db, f, true);
      } else {
        var dirty := ve.dirty || write;
        SetPageState(PageState(true, dirty, true, true, dirty), db, 0, false);
      }
      return 0, writeOk, readOk;
    }

    /** The frame filling of `vm_fault` (Pager/vm_pager.cpp:113-123): zeros
        for a copy-on-write fault, else the stored block, the frame going back
        to the free queue and off the clock when the read fails. `readOk` is
        the outcome of `file_read`. */
    method FillFrame(db: DiskBlock, f: nat, zero: bool) returns (ok: bool, ghost readOk: bool)
      modifies this
      requires f < |physmem| && clock != [] && NoDup(clock)
      ensures ok <==> zero || readOk
      ensures zero ==> Snapshot() == old(Snapshot()).(physmem := old(physmem)[f := ZeroPage()])
      ensures !zero && readOk ==> Snapshot() == old(Snapshot()).(physmem := old(physmem)[f := ReadPage(old(disk), db)])
      ensures !ok ==> Snapshot() == Release(old(Snapshot()), f)
    {
      readOk := true;
      if zero {
        physmem := physmem[f := ZeroPage()];
        return true, readOk;
      }
      ok := FileRead(db, f);
      if !ok {
        readOk := false;
        freeFrames := freeFrames + [f];
        RemoveFromClockIsWithout(clock, f);
        RemoveFromClockQueue(f);
      }
    }

    /** `share_map[db][pid].push_back(v)` with `operator[]` creating the
        missing levels. */
    method AddSharerEntry(db: DiskBlock, pid: int, v: nat)
      modifies this
      ensures Snapshot() == old(Snapshot()).(sharers := AddSharer(old(sharers), db, pid, v))
    {
      var users := if db in sharers then sharers[db] else map[];
      var list := if pid in users then users[pid] else [];
      sharers := sharers[db := users[pid := list + [v]]];
    }

    /** The tail of both branches of `vm_map` (Pager/vm_pager.cpp:158-162,
        194-198): the new page's backing fields, then the cursor. */
    method AttachPage(fileBacked: bool, name: string, block: nat)
      modifies this
      requires currentPid in processes && processes[currentPid].currentPosition < |processes[currentPid].vpt|
      ensures Snapshot() == Attach(old(Snapshot()), fileBacked, name, block)
    {
      var q := processes[currentPid];
      var i := q.currentPosition;
      processes := processes[currentPid := q.(vpt := q.vpt[i := q.vpt[i].(fileBacked := fileBacked, filename := name, block := block)],
                                               currentPosition := i + 1)];
    }

    /** The swap-backed branch of `vm_map` (Pager/vm_pager.cpp:138-164):
        the front free slot becomes the new page, listed as its only
        sharer, pinned on the zero frame. */
    method MapSwap() returns (addr: Option<nat>)
      modifies this
      requires Tabled(Snapshot()) && SharersLive(sharers, processes)
      ensures (Snapshot(), addr) == MapSwapSpec(old(Snapshot()))
    {
      var cur := currentPid;
      var i := processes[cur].currentPosition;
      if i >= ARENA_PAGES {
        return None;
      }
      if freeSwap == [] {
        return None;
      }
      var slot := freeSwap[0];
      freeSwap := freeSwap[1..];
      var sb := DiskBlock("", slot);
      AddSharerLive(sharers, processes, sb, cur, i);
      AddSharerEntry(sb, cur, i);
      SetPageState(ZeroPinned, sb, 0, true);
      AttachPage(false, "", slot);
      return Some(PageAddress(i));
    }

    /** The file-backed branch of `vm_map` once the file name is known
        (Pager/vm_pager.cpp:181-199): the page joins the block's sharers,
        takes the block's state when some process already used it and the
        all-clear state otherwise, and is attached to the block. */
    method BindFile(name: string, block: nat)
      modifies this
      requires Tabled(Snapshot()) && !ArenaFull(Snapshot()) && SharersLive(sharers, processes)
      ensures Snapshot() == BindFileSpec(old(Snapshot()), name, block)
    {
      var cur := currentPid;
      var i := processes[cur].currentPosition;
      var fb := DiskBlock(name, block);
      AddSharerLive(sharers, processes, fb, cur, i);
      AddSharerEntry(fb, cur, i);
      ghost var s1 := Snapshot();
      if fb in status {
        var st := status[fb];
        SetPageState(StateOf(st), fb, st.ptes.ppage, true);
      } else {
        SetPageState(PageState(false, false, false, false, false), fb, 0, false);
      }
      ghost var (st, f, upd) := FileState(s1, fb);
      assert Snapshot() == SetPageStateSpec(s1, st, fb, f, upd);
      AttachPage(true, name, block);
    }

    /** The fault of `Find_filename` (Pager/vm_helper.cpp:88-92): the page
        of `a` is faulted in when the table forbids reading it. `ok` is
        false where the fault fails; `writeOk` and `readOk` are the outcomes
        of the fault's storage calls. */
    method MakeReadable(a: nat) returns (ok: bool, ghost writeOk: bool, ghost readOk: bool)
      modifies this
      requires |physmem| >= 2 && Running(Snapshot()) && InArena(Snapshot(), a)
      ensures ReadAttempt(old(Snapshot()), a, writeOk, readOk, Snapshot(), ok)
    {
      ghost var s := Snapshot();
      VpnInRange(s, a);
      var vpn := (a - ARENA_BASE) / PAGESIZE;
      if processes[currentPid].ppt[vpn].readEnable {
        return true, true, true;
      }
      ReadFaultAllowed(s, a);
      var r;
      r, writeOk, readOk := Fault(a, false);
      FaultResolves(s, a, false, writeOk, readOk);
      ok := r != -1;
    }

    /** One character of `Find_filename` (Pager/vm_helper.cpp:84-94): an
        address past the mapped arena fails; otherwise the page is made
        readable and the character at `offset` of its frame is read. `ok` is
        false where the source throws. */
    method ReadChar(vpn: nat, offset: nat, ghost addr: nat, ghost s0: PagerState)
      returns (ok: bool, c: char, ghost writeOk: bool, ghost readOk: bool)
      modifies this
      requires addr == ARENA_BASE + vpn * PAGESIZE + offset
      requires offset < PAGESIZE && |s0.physmem| >= 2 && Continues(s0, Snapshot())
      ensures Continues(s0, Snapshot())
      ensures ok ==> ReadsAt(s0, Snapshot(), addr, c)
      ensures addr >= ArenaEnd(s0) ==> !ok && Snapshot() == old(Snapshot())
      ensures addr < ArenaEnd(s0) ==>
        ReadAttempt(old(Snapshot()), addr, writeOk, readOk, Snapshot(), ok)
    {
      ghost var s := Snapshot();
      ArenaEndKept(s0, s);
      c, writeOk, readOk := ' ', true, true;
      var readAddr := vpn * PAGESIZE + offset + ARENA_BASE;
      if readAddr >= ARENA_BASE + processes[currentPid].currentPosition * PAGESIZE {
        return false, c, writeOk, readOk;
      }
      AddressSplit(vpn, offset);
      assert readAddr == addr && s == old(Snapshot());
      ok, writeOk, readOk := MakeReadable(readAddr);
      assert ReadAttempt(s, addr, writeOk, readOk, Snapshot(), ok);
      ReadFaultSettles(s, readAddr, writeOk, readOk);
      ContinuesTrans(s0, s, Snapshot());
      if !ok {
        return;
      }
      ghost var t := Snapshot();
      var f := processes[currentPid].ppt[vpn].ppage;
      c := physmem[f][offset];
      assert c == ByteAt(t, readAddr);
    }

    /** One turn of the loop of `Find_filename` (Pager/vm_helper.cpp:84-95)
        that started in state `s0` and has read `text` so far. */
    method ReadNext(nameAddr: nat, vpn: nat, offset: nat, ghost text: string, ghost trace: seq<PagerState>,
                    ghost outcomes: seq<(bool, bool)>, ghost s0: PagerState)
      returns (ok: bool, c: char, ghost writeOk: bool, ghost readOk: bool)
      modifies this
      requires Reading(nameAddr, vpn, offset, text, trace) && offset < PAGESIZE
      requires text != [] ==> text[|text| - 1] != '\0'
      requires |s0.physmem| >= 2 && Continues(s0, Snapshot())
      requires Chained(s0, nameAddr, trace, outcomes) && Snapshot() == Before(s0, trace, |trace|)
      ensures Continues(s0, Snapshot())
      ensures ok ==> Reading(nameAddr, vpn, offset + 1, text + [c], trace + [Snapshot()])
      ensures ok ==> nameAddr + |text| < ArenaEnd(s0)
      ensures ok ==> ReadAttempt(old(Snapshot()), NameByte(nameAddr, |text|), writeOk, readOk, Snapshot(), true)
      ensures ok ==> Chained(s0, nameAddr, trace + [Snapshot()], outcomes + [(writeOk, readOk)])
      ensures !ok && Running(s0) && nameAddr >= ARENA_BASE ==>
        ScanFails(s0, nameAddr, Scan(text, trace, outcomes, old(Snapshot()), writeOk, readOk), Snapshot())
    {
      ghost var last := Snapshot();
      ArenaEndKept(s0, last);
      ghost var a := NameByte(nameAddr, |text|);
      ok, c, writeOk, readOk := ReadChar(vpn, offset, a, s0);
      if ok {
        ReadingStep(s0, Snapshot(), nameAddr, vpn, offset, text, trace, c);
        ChainedExtend(s0, nameAddr, trace, outcomes, writeOk, readOk, Snapshot());
      } else if Running(s0) && nameAddr >= ARENA_BASE {
        NoNulYet(text);
        ScanStopped(s0, nameAddr, text, trace, outcomes, last, a, writeOk, readOk, Snapshot(), ok);
      }
    }

    /** `Find_filename(nameAddr)` (Pager/vm_helper.cpp:72-99): reads the
        running process's memory character by character from `nameAddr`,
        faulting a page in whenever its table forbids reading it, up to and
        including the first NUL. The name on success; None, with the reason,
        where the source throws. */
    method FindFilename(nameAddr: nat) returns (name: Option<string>, ghost scan: Scan)
      modifies this
      requires Running(Snapshot()) && |physmem| >= 2 && nameAddr >= ARENA_BASE
      ensures Continues(old(Snapshot()), Snapshot())
      ensures name.Some? ==> name.value == scan.text && NameRead(scan.text, scan.trace, nameAddr) && scan.last == Snapshot()
      ensures name.Some? ==> Chained(old(Snapshot()), nameAddr, scan.trace, scan.outcomes)
                             && scan.last == Before(old(Snapshot()), scan.trace, |scan.trace|)
      ensures name.None? ==> ScanFails(old(Snapshot()), nameAddr, scan, Snapshot())
    {
      ghost var s0 := Snapshot();
      var vpn, offset := Locate(nameAddr);
      var alpha := ' ';
      var text: string := "";
      ghost var trace: seq<PagerState> := [];
      ghost var outcomes: seq<(bool, bool)> := [];
      while alpha != '\0'
        invariant Continues(s0, Snapshot())
        invariant Reading(nameAddr, vpn, offset, text, trace)
        invariant Chained(s0, nameAddr, trace, outcomes) && Snapshot() == Before(s0, trace, |trace|)
        invariant alpha == if text == [] then ' ' else text[|text| - 1]
        decreases ArenaEnd(s0) - (nameAddr + |text|)
      {
        if offset == PAGESIZE {
          ReadingNextPage(nameAddr, vpn, text, trace);
          vpn := vpn + 1;
          offset := 0;
        }
        ghost var last := Snapshot();
        var ok;
        ghost var writeOk, readOk;
        ok, alpha, writeOk, readOk := ReadNext(nameAddr, vpn, offset, text, trace, outcomes, s0);
        if !ok {
          return None, Scan(text, trace, outcomes, last, writeOk, readOk);
        }
        outcomes := outcomes + [(writeOk, readOk)];
        trace := trace + [Snapshot()];
        offset := offset + 1;
        text := text + [alpha];
      }
      return Some(text), Scan(text, trace, outcomes, Snapshot(), true, true);
    }

    /** `vm_map(filename, block)` (Pager/vm_pager.cpp:136-201), with None
        for a null `filename` and for the returned `nullptr`: a swap-backed
        page when `nameAddr` is None, a file-backed one otherwise. */
    method Map(nameAddr: Option<nat>, block: nat) returns (addr: Option<nat>, ghost scan: Scan)
      modifies this
      requires Running(Snapshot()) && (nameAddr.Some? ==> |physmem| >= 2)
      ensures Running(Snapshot())
      ensures nameAddr.None? ==> (Snapshot(), addr) == MapSwapSpec(old(Snapshot()))
      ensures nameAddr.Some? ==> FileMapped(old(Snapshot()), nameAddr.value, block, addr, scan, Snapshot())
    {
      scan := Scan("", [], [], Snapshot(), true, true);
      ghost var s0 := Snapshot();
      if nameAddr.None? {
        assert WfProcess(processes[currentPid], |physmem|);
        StructuralSharersLive(s0);
        MapSwapRunning(s0);
        addr := MapSwap();
      } else {
        addr, scan := MapFile(nameAddr.value, block);
      }
    }

    /** The file-backed branch of `vm_map` (Pager/vm_pager.cpp:138-142,
        165-200). */
    method MapFile(nameAddr: nat, block: nat) returns (addr: Option<nat>, ghost scan: Scan)
      modifies this
      requires Running(Snapshot()) && |physmem| >= 2
      ensures Running(Snapshot())
      ensures FileMapped(old(Snapshot()), nameAddr, block, addr, scan, Snapshot())
    {
      ghost var s0 := Snapshot();
      scan := Scan("", [], [], s0, true, true);
      var i := processes[currentPid].currentPosition;
      if i >= ARENA_PAGES || nameAddr < ARENA_BASE || nameAddr >= ARENA_BASE + i * PAGESIZE {
        MapFileRefused(s0, nameAddr, block, scan);
        return None, scan;
      }
      var found;
      found, scan := FindFilename(nameAddr);
      if found.None? {
        MapFileUnnamed(s0, nameAddr, block, scan, Snapshot());
        return None, scan;
      }
      assert NameInArena(s0, nameAddr);
      ReadyToBind(s0, scan.last, scan.text, block);
      BindFile(found.value, block);
      MapFileBound(s0, nameAddr, block, scan);
      return Some(PageAddress(i)), scan;
    }
  }
}
