/**
 * The pager's records (Pager/structure.h): the per-page virtual entry, the
 * per-page protection entry seen by the MMU, the canonical status of a
 * backing block, a process's tables, and the backing-block identity
 * `disk_block_t` with its equality and ordering operators.
 *
 * The arena geometry comes from the simulator's `vm_arena.h`, which is not
 * part of this model; the constants below are the values the course header uses.
 */
module Structure {

  /** Bytes per page (`VM_PAGESIZE`). */
  const PAGESIZE: nat := 65536
  /** First virtual address of the arena (`VM_ARENA_BASEADDR`). */
  const ARENA_BASE: nat := 0x6_0000_0000
  /** Size of the arena in bytes (`VM_ARENA_SIZE`). */
  const ARENA_SIZE: nat := 0x100_0000
  /** Entries in every process table (`VM_ARENA_SIZE/VM_PAGESIZE`, 256). */
  const ARENA_PAGES: nat := ARENA_SIZE / PAGESIZE

  /** The contents of one physical page or one storage block. */
  type Page = seq<char>

  function ZeroPage(): (p: Page)
    ensures |p| == PAGESIZE && forall k :: 0 <= k < |p| ==> p[k] == '\0'
  {
    seq(PAGESIZE, _ => '\0')
  }

  // ---------------------------------------------------------------------
  // Backing-store identity

  /** A swap slot has filename "" (the swap file); a file block has its file's name. */
  datatype DiskBlock = DiskBlock(filename: string, block: nat)

  /** `disk_block_t::operator==`. */
  predicate SameBlock(a: DiskBlock, b: DiskBlock) {
    a.filename == b.filename && a.block == b.block
  }

  /** `std::string::operator<`: lexicographic, a proper prefix comes first. */
  predicate StringLess(s: string, t: string)
    decreases |s|
  {
    if s == [] then t != []
    else if t == [] then false
    else s[0] < t[0] || (s[0] == t[0] && StringLess(s[1..], t[1..]))
  }

  /** `disk_block_t::operator<`: by filename, then by block number. */
  predicate BlockLess(a: DiskBlock, b: DiskBlock) {
    StringLess(a.filename, b.filename) || (a.filename == b.filename && a.block < b.block)
  }

  lemma SameBlockIsIdentity(a: DiskBlock, b: DiskBlock)
    ensures SameBlock(a, b) <==> a == b
  {
  }

  lemma {:induction false} StringLessIrreflexive(s: string)
    ensures !StringLess(s, s)
    decreases |s|
  {
    if s != [] {
      StringLessIrreflexive(s[1..]);
    }
  }

  lemma {:induction false} StringLessAsymmetric(s: string, t: string)
    requires StringLess(s, t)
    ensures !StringLess(t, s)
    decreases |s|
  {
    if s != [] && t != [] && s[0] == t[0] {
      StringLessAsymmetric(s[1..], t[1..]);
    }
  }

  lemma {:induction false} StringLessTransitive(s: string, t: string, u: string)
    requires StringLess(s, t) && StringLess(t, u)
    ensures StringLess(s, u)
    decreases |s|
  {
    if s != [] && t != [] && u != [] && s[0] == t[0] && t[0] == u[0] {
      StringLessTransitive(s[1..], t[1..], u[1..]);
    }
  }

  lemma {:induction false} StringLessTotal(s: string, t: string)
    ensures StringLess(s, t) || s == t || StringLess(t, s)
    decreases |s|
  {
    if s != [] && t != [] && s[0] == t[0] {
      StringLessTotal(s[1..], t[1..]);
      if s[1..] == t[1..] {
        assert s == [s[0]] + s[1..] && t == [t[0]] + t[1..];
      }
    }
  }

  /** Exactly one of a < b, a == b, b < a holds: `operator<` is a strict total
      order whose equivalence is `operator==`, as std::map requires of its key. */
  lemma BlockLessTrichotomy(a: DiskBlock, b: DiskBlock)
    ensures BlockLess(a, b) || SameBlock(a, b) || BlockLess(b, a)
    ensures !(BlockLess(a, b) && SameBlock(a, b))
    ensures !(BlockLess(b, a) && SameBlock(a, b))
    ensures !(BlockLess(a, b) && BlockLess(b, a))
  {
    StringLessTotal(a.filename, b.filename);
    StringLessIrreflexive(a.filename);
    if StringLess(a.filename, b.filename) {
      StringLessAsymmetric(a.filename, b.filename);
    }
    if StringLess(b.filename, a.filename) {
      StringLessAsymmetric(b.filename, a.filename);
    }
  }

  lemma BlockLessTransitive(a: DiskBlock, b: DiskBlock, c: DiskBlock)
    requires BlockLess(a, b) && BlockLess(b, c)
    ensures BlockLess(a, c)
  {
    if StringLess(a.filename, b.filename) && StringLess(b.filename, c.filename) {
      StringLessTransitive(a.filename, b.filename, c.filename);
    }
  }

  /** Swap slots (filename "") order before every block of a named file. */
  lemma SwapBeforeFile(swap: DiskBlock, file: DiskBlock)
    requires swap.filename == "" && file.filename != ""
    ensures BlockLess(swap, file) && !BlockLess(file, swap)
  {
  }

  // ---------------------------------------------------------------------
  // Page-table records

  /** `virtual_page_entry_t`; the source stores each flag in an unsigned int
      that only ever holds 0 or 1. `fileBacked` is `swap_or_file`. */
  datatype VirtualEntry = VirtualEntry(
    reference: bool, resident: bool, dirty: bool,
    fileBacked: bool, filename: string, block: nat)

  /** `page_table_entry_t`, the entry the MMU consults. */
  datatype PageTableEntry = PageTableEntry(ppage: nat, readEnable: bool, writeEnable: bool)

  /** `disk_block_status_t`: the canonical copy of a block's entries. */
  datatype BlockStatus = BlockStatus(ptes: PageTableEntry, vptes: VirtualEntry)

  /** `process_t`: the two tables and the allocation cursor. */
  datatype Process = Process(vpt: seq<VirtualEntry>, ppt: seq<PageTableEntry>, currentPosition: nat)

  /** The backing block a virtual entry aliases. */
  function Ident(v: VirtualEntry): DiskBlock {
    DiskBlock(v.filename, v.block)
  }

  function DefaultVirtualEntry(): (v: VirtualEntry)
    ensures !v.reference && !v.resident && !v.dirty && !v.fileBacked
    ensures Ident(v) == DiskBlock("", 0)
  {
    VirtualEntry(false, false, false, false, "", 0)
  }

  /** The entry `vm_create` writes into every slot of a fresh physical table. */
  function ClearedEntry(): (p: PageTableEntry)
    ensures p.ppage == 0 && !p.readEnable && !p.writeEnable
  {
    PageTableEntry(0, false, false)
  }

  /** A value-initialised `disk_block_status_t`, as `std::map::operator[]` creates it. */
  function DefaultStatus(): (st: BlockStatus)
    ensures st.ptes == ClearedEntry() && st.vptes == DefaultVirtualEntry()
  {
    BlockStatus(ClearedEntry(), DefaultVirtualEntry())
  }

  /** The process `vm_create` registers: every entry cleared and the cursor at 0. */
  function FreshProcess(): (p: Process)
    ensures |p.vpt| == ARENA_PAGES && |p.ppt| == ARENA_PAGES && p.currentPosition == 0
    ensures forall i :: 0 <= i < ARENA_PAGES ==> p.vpt[i] == DefaultVirtualEntry() && p.ppt[i] == ClearedEntry()
  {
    Process(seq(ARENA_PAGES, _ => DefaultVirtualEntry()), seq(ARENA_PAGES, _ => ClearedEntry()), 0)
  }

  // ---------------------------------------------------------------------
  // Set_state

  /** The five values `Set_state` writes, in its parameter order. */
  datatype PageState = PageState(read: bool, write: bool, resident: bool, reference: bool, dirty: bool)

  /** `Set_state` on one pair of entries: the protection and residency bits
      take the given values, the frame only when `updatePPG` is set, and the
      block identity is never touched. */
  function SetPte(st: PageState, ppage: nat, updatePPG: bool, pte: PageTableEntry): (r: PageTableEntry)
    ensures r.readEnable == st.read && r.writeEnable == st.write
    ensures r.ppage == if updatePPG then ppage else pte.ppage
  {
    PageTableEntry(if updatePPG then ppage else pte.ppage, st.read, st.write)
  }

  function SetVpte(st: PageState, vpte: VirtualEntry): (r: VirtualEntry)
    ensures r.resident == st.resident && r.reference == st.reference && r.dirty == st.dirty
    ensures r.fileBacked == vpte.fileBacked && Ident(r) == Ident(vpte)
  {
    vpte.(resident := st.resident, reference := st.reference, dirty := st.dirty)
  }

  /** The five flags of a canonical status, as `Set_page_state` would rewrite them. */
  function StateOf(st: BlockStatus): (r: PageState)
    ensures SetPte(r, 0, false, st.ptes) == st.ptes && SetVpte(r, st.vptes) == st.vptes
  {
    PageState(st.ptes.readEnable, st.ptes.writeEnable, st.vptes.resident, st.vptes.reference, st.vptes.dirty)
  }
}
