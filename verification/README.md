# Pager and file-server helpers, modelled in Dafny

This project models two parts of an operating-systems course repository.

**The external pager** (`Pager/vm_pager.cpp`, `Pager/vm_helper.cpp`, `Pager/structure.h`).
It gives each process an arena of virtual pages:
- each page is backed by a swap slot or by a block of a named file;
- pages that alias the same backing block share one canonical status entry and one physical frame;
- a swap-backed page starts on the pinned, zero-filled frame 0;
- the first write copies it to a real frame;
- frames are recycled by a second-chance clock queue that writes dirty victims back to storage.

The model has three layers:
- Specification functions over one value, `PagerState.PagerState`, which holds the pager's globals: `current_pid`, the page-table base register, `process_map`, `ppage_to_block_map`, `share_map`, `block_status_map`, the three queues, physical memory and storage. There is one function per entry point and per helper: `Lifecycle.InitSpec`, `CreateSpec`, `SwitchSpec`, `Teardown.DestroySpec`, `Faults.FaultSpec`, `Mapping.MapSwapSpec`/`BindFileSpec`, `Eviction.FindPlaceSpec`, `PagerState.SetPageStateSpec` and `Queues.RemoveFromClock`.
- The class `Pager.Manager`. Its fields are those same globals, and its methods update them loop by loop as the source does. Each method is proved to leave `Snapshot()` equal to the specification function applied to the old state. The file branch of `vm_map` is the exception: it first reads the file name out of the process's memory, which may fault pages in. The read is chained (`Chained`): character j is read in the state the read of character j-1 left (the starting state for the first), at the address one past the previous one, through that read's own fault outcome (`ReadAttempt`). So a character on a page the process could already read is the byte memory held when the scan began (`NameFromMemory`). The branch is proved to end in `BindFileSpec` of the state the last read left, a state in which the same process still runs with the same cursor (`Continues`), or in the failure `ScanFails` describes, which is chained the same way.
- The pager invariant `PagerState.Coherent`, proved to be kept by every entry point. It says:
  - frames 1..m-1 are partitioned between the free queue and the clock queue;
  - every sharer entry names a mapped page of a live process, and that page carries its block's canonical flags and frame;
  - a resident block on a real frame is on the clock and owns its frame;
  - the pinned state is exactly "resident on frame 0";
  - free swap slots are distinct, and each slot in use is mapped by exactly one page.

**The file server's request helpers** (`Filesys/helper.cpp`):
- the four request patterns;
- `Message_Parsing`, with the block-number conversion and the two validity checks;
- `Pathname_Parsing`;
- the lowest-free-block allocator over the free-block bitmap;
- the three per-inode checks.

`Pathname_Parsing`, `String_to_Int` and the allocator are loop methods, each proved against a specification function. The rest are functions.

Some inputs are outside the model and enter as parameters or choices:
- Physical memory is a sequence of pages.
- Storage is a map from (file name or swap, block) to a page.
- The outcome of each `file_read`/`file_write` call is a nondeterministic choice. It is reported as a ghost out-parameter (`writeOk`, `readOk`).

The arena geometry and the file-system limits come from `vm_arena.h` and `fs_param.h`, which are not part of this model. The constants use the course header's values:
- page size 65536, arena base 0x600000000, arena size 0x1000000 (256 pages);
- names at most 59 characters, pathnames at most 128, usernames at most 10;
- at most 124 blocks per file, 4096 disk blocks.

## Model

| member | source | states |
|---|---|---|
| Structure.SameBlockIsIdentity | Pager/structure.h:41-43 | `disk_block_t::operator==` holds exactly for equal (filename, block) pairs |
| Structure.BlockLessTrichotomy | Pager/structure.h:44-46 | `operator<` is a strict total order: exactly one of a<b, a==b, b<a |
| Structure.BlockLessTransitive | Pager/structure.h:44-46 | `operator<` is transitive, so `std::map` keyed by blocks is well defined |
| Structure.StringLessTotal | Pager/structure.h:44-46 | the `std::string` comparison the block order uses is total: s < t, s == t or t < s |
| Structure.StringLessTransitive | Pager/structure.h:44-46 | the `std::string` comparison is transitive |
| Structure.StringLessAsymmetric | Pager/structure.h:44-46 | the `std::string` comparison is asymmetric (and, by StringLessIrreflexive, irreflexive) |
| Structure.SwapBeforeFile | Pager/structure.h:44-46 | swap slots (filename "") order before every file block |
| Structure.FreshProcess | Pager/vm_pager.cpp:37-47 | a created process has full-size tables, all entries cleared, cursor 0 |
| Structure.DefaultVirtualEntry | Pager/structure.h:14-21 | a default virtual entry is swap-backed, not resident, unreferenced, clean, and aliases ("", 0) |
| Structure.SetPte | Pager/vm_helper.cpp:4-13 | `Set_state` sets the protection bits and replaces the frame only when asked |
| Structure.SetVpte | Pager/vm_helper.cpp:4-13 | `Set_state` sets resident/reference/dirty and keeps the backing identity |
| Structure.StateOf | Pager/vm_helper.cpp:4-13 | re-applying a status's own flags without a frame update leaves it unchanged |
| Queues.Range | Pager/vm_pager.cpp:25-30 | the fill loops of `vm_init` push lo, lo+1, ..., hi-1 |
| Queues.RemoveFromClockIsWithout | Pager/vm_helper.cpp:101-120 | on a duplicate-free queue, `RemoveFromClockQueue(p)` deletes exactly `p`, keeps the other frames in order, and changes nothing when `p` is absent |
| Queues.Without | Pager/vm_helper.cpp:111-118 | dropping `p` from a queue keeps every other frame with its multiplicity and leaves no copy of `p` |
| Queues.WithoutAppend | Pager/vm_helper.cpp:111-118 | dropping `p` distributes over concatenation (the cycling loop's step) |
| Queues.PartitionInit | Pager/vm_pager.cpp:25-31 | after `vm_init` the frames 1..m-1 are free once each and none is on the clock |
| Queues.PartitionTakeFree | Pager/vm_helper.cpp:31-36 | moving the front free frame to the clock keeps the partition |
| Queues.PartitionRotate | Pager/vm_helper.cpp:44-52 | requeueing the clock head keeps the partition |
| Queues.PartitionRelease | Pager/vm_pager.cpp:119-120 | returning a clock frame to the free queue keeps the partition |
| Queues.PartitionReleaseAll | Pager/vm_pager.cpp:74-78 | returning a duplicate-free batch of clock frames keeps the partition |
| PagerState.FilenameToChar | Pager/vm_helper.cpp:122-130 | the empty name (swap) becomes a null pointer, every other name itself |
| PagerState.StorageKeyInjective | Pager/vm_helper.cpp:59 | distinct blocks never share a storage location; swap blocks are exactly those reached through the null name |
| PagerState.ApplyTo | Pager/vm_helper.cpp:20-22 | `Set_state` on a list of pages changes exactly the listed pages and keeps table sizes and cursor |
| PagerState.SetPageStateStatus | Pager/vm_helper.cpp:16-17 | after `Set_page_state` the block's canonical entry holds the given flags (and frame when asked) |
| PagerState.SetPageStateEntry | Pager/vm_helper.cpp:16-25 | every sharer page of the block gets the flags and frame; every other page is unchanged |
| PagerState.SetPageStateStructural | Pager/vm_helper.cpp:16-25 | `Set_page_state` keeps the bookkeeping's shape whatever it writes |
| PagerState.MappedPageSafety | Pager/vm_pager.cpp:98 | under the invariant a writable page is never on frame 0, a readable page is resident, and a readable page on a real frame is on the clock, owned by its block |
| PagerState.HeadFrame | Pager/vm_helper.cpp:44-47 | the clock head is a real frame (never 0) with an owner |
| PagerState.FramesAvailable | Pager/vm_helper.cpp:31-40 | with at least two frames, a frame is free or on the clock, so the allocator's assertion holds |
| Eviction.RotateKeeps | Pager/vm_helper.cpp:44-52 | requeueing the head keeps the clock's contents, the shape and the residency relation |
| Eviction.ClearHeadStructural | Pager/vm_helper.cpp:49-52 | clearing a referenced head keeps the shape and the clock's contents |
| Eviction.ClearHeadProgress | Pager/vm_helper.cpp:49-52 | clearing a referenced head strictly shrinks the set of referenced clock frames (the sweep terminates) |
| Eviction.Sweep | Pager/vm_helper.cpp:43-53 | the second-chance sweep ends with an unreferenced head; it keeps the clock's contents, owners, sharers, queues, memory, storage and every process's shape |
| Eviction.SweepWithinOnePass | Pager/vm_helper.cpp:43-53 | the victim is found after at most \|clock\| requeues, and at once iff the head is unreferenced |
| Eviction.SweepResidency | Pager/vm_helper.cpp:43-53 | the sweep keeps the residency relation and the status of every non-resident block |
| Eviction.EvictAsWrittenLosesFrame | Pager/vm_helper.cpp:44-61 | as written, a failed write-back of a dirty victim leaves its frame in neither queue, so the partition breaks |
| Eviction.EvictKeepsFrame | Pager/vm_helper.cpp:44-66 | with the victim requeued, a failed write-back keeps it on the clock, the shape intact and owners, statuses and storage unchanged |
| Eviction.EvictStructural | Pager/vm_helper.cpp:54-66 | a successful eviction keeps the shape and the clock's contents; the victim's block ends with every flag cleared, its frame goes to `replace`, and storage receives the frame iff the block was dirty |
| Eviction.EvictResidency | Pager/vm_helper.cpp:54-66 | after an eviction the only exception to residency is the frame just handed out |
| Eviction.FindPlaceFromFree | Pager/vm_helper.cpp:31-37 | with a free frame, the front free frame is taken, appended to the clock, owned by `replace`, and no status changes |
| Eviction.FindPlaceByEviction | Pager/vm_helper.cpp:38-68 | (corrected allocator) without a free frame the clock keeps its contents; the victim is the first unreferenced head; failure happens iff it is dirty and its write-back fails |
| Eviction.FindPlaceStructural | Pager/vm_helper.cpp:27-70 | (corrected allocator) the allocator keeps the shape; a returned frame is a real frame at the clock's tail owned by `replace` |
| Eviction.FindPlaceResidency | Pager/vm_helper.cpp:27-70 | (corrected allocator) residency holds after the allocator except for the returned frame |
| Faults.VpnInRange | Pager/vm_pager.cpp:89-93 | an address inside the mapped arena has a page number below the cursor, with table entries |
| Faults.EntryAgrees | Pager/vm_pager.cpp:94-96 | the faulting page's entries are its block's canonical ones |
| Faults.FaultOutsideArena | Pager/vm_pager.cpp:89-92 | an address outside the mapped arena returns -1 and changes nothing |
| Faults.FaultCoherent | Pager/vm_pager.cpp:87-134 | (corrected allocator) `vm_fault` keeps the pager invariant on every path, whatever the storage outcomes |
| Faults.FaultResolves | Pager/vm_pager.cpp:87-134 | (corrected allocator) a fault returns 0 or -1; 0 iff the page needed no frame or the allocator and the read succeeded; after 0 the page is readable, and writable for a write |
| Faults.FaultInEffect | Pager/vm_pager.cpp:98-126 | on the fault-in path the block and all its sharers become readable, resident, referenced and on the new frame, writable and dirty iff the fault is a write; the frame holds zeros (copy-on-write) or the stored block |
| Faults.FaultReadFailure | Pager/vm_pager.cpp:118-122 | a failed read returns -1 and hands the reserved frame back: free again and off the clock |
| Faults.FaultResidentEffect | Pager/vm_pager.cpp:127-132 | on the resident path dirty becomes dirty-or-write, write access follows it, and the frame and queues stay |
| Faults.FaultShape | Pager/vm_pager.cpp:87-134 | a fault never changes the running process, the set of processes, their cursors or the number of frames |
| Faults.FaultKeepsRunning | Pager/vm_pager.cpp:87-134 | (corrected allocator) the running process stays running across a fault |
| Mapping.AddSharer | Pager/vm_pager.cpp:156 | `share_map[db][pid].push_back(v)` adds exactly the sharer (db, pid, v) |
| Mapping.MapSwapEffect | Pager/vm_pager.cpp:138-164 | swap mapping fails (no change) iff the arena is full or no slot is free; otherwise the next page takes the front free slot, starts pinned on frame 0, is the slot's only sharer, and its address is returned; nothing else changes |
| Mapping.MapSwapCoherent | Pager/vm_pager.cpp:138-164 | swap mapping keeps the pager invariant |
| Mapping.BindFileEffect | Pager/vm_pager.cpp:181-199 | file mapping makes the next page alias (name, block), file-backed, listed as a sharer and agreeing with the block's canonical entry; the cursor advances; a known block keeps its status, a new one starts cleared; queues, clock, memory, other processes and other pages are unchanged |
| Mapping.BindFileCoherent | Pager/vm_pager.cpp:181-199 | file mapping keeps the pager invariant |
| Mapping.PageAddressVpn | Pager/vm_pager.cpp:161 | the returned address lies in the new page and addresses grow with the page index |
| Mapping.MapSwapRunning | Pager/vm_pager.cpp:138-164 | swap mapping leaves the running process running |
| Mapping.BindFileRunning | Pager/vm_pager.cpp:181-199 | file mapping leaves the running process running |
| Teardown.Frames | Pager/vm_pager.cpp:74-78 | a frame is handed back iff some page below k is swap-backed, resident, on a real frame |
| Teardown.Slots | Pager/vm_pager.cpp:71-73 | a slot is handed back iff some page below k is swap-backed on it |
| Teardown.DestroyStep | Pager/vm_pager.cpp:65-80 | one iteration returns the page's slot and frame, removes the frame from the clock, and drops the process from the block's sharers |
| Teardown.DestroyLoop | Pager/vm_pager.cpp:65-80 | the loop appends the slots and frames in page order and removes exactly those frames from the clock |
| Teardown.DestroyLoopSharers | Pager/vm_pager.cpp:68-70 | after the loop the blocks of the visited pages no longer list the process; the others are unchanged |
| Teardown.DestroySharers | Pager/vm_pager.cpp:60-85 | after `vm_destroy` no block lists the process and every other process's sharer lists are unchanged |
| Teardown.DestroyFields | Pager/vm_pager.cpp:60-85 | `vm_destroy` erases the process, appends its slots and frames to the free queues, leaves the base register naming no table, and leaves statuses, owners, memory and storage alone |
| Teardown.DestroyFrames | Pager/vm_pager.cpp:74-78 | the released frames are distinct and were on the clock; the partition survives and the clock only loses them |
| Teardown.DestroySlots | Pager/vm_pager.cpp:71-73 | the released slots are distinct and were in use, so the free swap queue stays duplicate-free |
| Teardown.DestroyCoherent | Pager/vm_pager.cpp:60-85 | `vm_destroy` keeps the pager invariant |
| Lifecycle.InitCoherent | Pager/vm_pager.cpp:23-33 | after `vm_init` exactly frames 1..m-1 and slots 0..n-1 are free, once each, frame 0 is zeroed and the invariant holds |
| Lifecycle.CreateCoherent | Pager/vm_pager.cpp:35-50 | creating a new process keeps the invariant and the other processes, and gives the child an empty arena with no access |
| Lifecycle.SwitchRunning | Pager/vm_pager.cpp:52-58 | switching makes the target current and changes nothing but the two registers; the target runs unless the switch returned early on a process with no table loaded |
| Lifecycle.DestroyThenSwitch | Pager/vm_pager.cpp:52-58 | after `vm_destroy` no process runs; switching to the destroyed pid, even after re-creating it, loads no table; switching to another live process makes it run |
| Lifecycle.SwitchToFirstZero | Pager/vm_pager.cpp:52-58 | with `current_pid` starting at 0, a first switch to process 0 returns early and loads no table |
| Pager.ApplyPages | Pager/vm_helper.cpp:20-22 | the inner loop of `Set_page_state` computes `ApplyTo` |
| Pager.Manager.Init | Pager/vm_pager.cpp:23-33 | the constructor's fill loops leave the state `InitSpec` describes |
| Pager.Manager.Create | Pager/vm_pager.cpp:35-50 | `vm_create` returns 0 and leaves `CreateSpec` |
| Pager.Manager.Switch | Pager/vm_pager.cpp:52-58 | `vm_switch` leaves `SwitchSpec` |
| Pager.Manager.Destroy | Pager/vm_pager.cpp:60-85 | `vm_destroy` leaves `DestroySpec`; the base register no longer names a table |
| Pager.Manager.ReleasePages | Pager/vm_pager.cpp:65-80 | the loop over pages 0..count-1 leaves `DestroyLoop` of the old state |
| Pager.Manager.ReleaseNext | Pager/vm_pager.cpp:65-80 | one more turn of the loop advances `DestroyLoop` by exactly one page |
| Pager.Manager.ReleasePage | Pager/vm_pager.cpp:66-79 | one loop iteration leaves `DestroyStep` |
| Pager.Manager.SetPageState | Pager/vm_helper.cpp:16-25 | `Set_page_state` leaves `SetPageStateSpec` |
| Pager.Manager.SetSharerPages | Pager/vm_helper.cpp:19-24 | the loops over `share_map[db]` update exactly the listed pages of each sharing process (`SetSharers`) and nothing else |
| Pager.Manager.AddSharerEntry | Pager/vm_pager.cpp:156 | `share_map[db][pid].push_back(v)` leaves the sharers `AddSharer` describes and nothing else changed |
| Pager.Manager.AttachPage | Pager/vm_pager.cpp:158-162 | the new page gets its backing fields and the cursor advances, as `Attach` describes |
| Pager.Manager.RemoveFromClockQueue | Pager/vm_helper.cpp:101-120 | the pop-and-cycle loop leaves the clock `RemoveFromClock(old clock, p)` and nothing else changed |
| Pager.Manager.CycleClock | Pager/vm_helper.cpp:111-118 | after the old head `top` is requeued, the cycling loop leaves `top` in front of the other frames, in order, without `p`; nothing else changes |
| Pager.Manager.FindPlace | Pager/vm_helper.cpp:27-70 | (corrected allocator) the allocator's loop leaves `FindPlaceSpec`, with the victim requeued on a failed write-back |
| Pager.Manager.ClearReferenced | Pager/vm_helper.cpp:49-53 | a referenced head loses its reference and access and is requeued: the state `ClearHead` describes |
| Pager.Manager.EvictPopped | Pager/vm_helper.cpp:54-66 | (corrected allocator) an unreferenced head is written back when dirty, then evicted and handed to `replace`: the state and frame `Evict` describes. When the write-back fails it is requeued, where the source throws with the frame already popped |
| Pager.Manager.FileWrite | Pager/vm_helper.cpp:58-62 | a successful `file_write` stores the frame under the block's storage key; a failed one changes nothing |
| Pager.Manager.FileRead | Pager/vm_pager.cpp:118 | a successful `file_read` fills the frame with the stored block; a failed one changes nothing |
| Pager.Manager.Fault | Pager/vm_pager.cpp:87-134 | `vm_fault` leaves `FaultSpec` and returns its result |
| Pager.Manager.FillFrame | Pager/vm_pager.cpp:107-123 | the reserved frame is zeroed for copy-on-write or filled from storage; it fails iff the read fails, and then the frame is free again and off the clock |
| Pager.Manager.MapSwap | Pager/vm_pager.cpp:138-164 | the swap branch of `vm_map` leaves `MapSwapSpec` and returns its address |
| Pager.Manager.BindFile | Pager/vm_pager.cpp:181-199 | the file branch after the name is known leaves `BindFileSpec` |
| Pager.Manager.MapFile | Pager/vm_pager.cpp:165-200 | `FileMapped`: a full arena or a name address outside the mapped arena gives nullptr and no change; a name that cannot be read gives nullptr in the state `ScanFails` describes; otherwise the NUL-terminated name read from memory, each character read in the state the previous read left (`Chained`), is bound: the final state is `BindFileSpec` of the state the read left, the cursor is one past the old one and the old cursor's page address is returned |
| Pager.Manager.ReadChar | Pager/vm_helper.cpp:84-94 | an address past the mapped arena fails with no change; otherwise the state and outcome are those of the read fault (`ReadAttempt`), and on success the character is the byte the process can read there |
| Pager.Locate | Pager/vm_helper.cpp:74-75 | the page and offset where reading starts: the offset is below the page size and the two recompose the name address |
| Pager.Manager.MakeReadable | Pager/vm_helper.cpp:88-92 | the state and outcome are `ReadFaultSpec`: a readable page is left alone and the read goes on; otherwise `vm_fault(a, false)` runs and the read goes on iff it returns 0 |
| Pager.ReadFaultAllowed | Pager/vm_helper.cpp:88-89 | the read fault on a page without read access meets `vm_fault`'s assertions |
| Pager.ReadFault | Pager/vm_helper.cpp:88-91 | the read fault keeps the process running and, when it returns 0, leaves the address readable |
| Pager.ReadFaultOutcome | Pager/vm_helper.cpp:88-92 | the read goes on exactly when the page was readable (then nothing changes) or the fault returned 0; otherwise the fault returned -1; either way the process keeps running, and after a read that goes on the address is readable |
| Pager.ReadFaultSettles | Pager/vm_helper.cpp:88-92 | whatever the fault does, the process keeps running, and a read that goes on finds its address readable |
| Pager.ScanStopped | Pager/vm_helper.cpp:85-91 | a turn of the loop that fails, past the arena or on a failed fault, after a chained read of the text so far, ends the scan as `ScanFails` describes |
| Pager.ChainedExtend | Pager/vm_helper.cpp:84-95 | a read that starts in the state the last one left, at the next address, and goes on extends the chain of reads |
| Pager.StepUnfaulted | Pager/vm_helper.cpp:88-93 | a chained read from a page the process could already read runs no fault and leaves the state as it found it |
| Pager.NameFromMemory | Pager/vm_helper.cpp:72-99 | when every character of a name prefix lies on a page the process could read when the scan began, each was read in that very state, and is the byte memory held there |
| Pager.NulNotMissed | Pager/vm_helper.cpp:84-96 | a NUL the process can already read at the name address never makes the scan throw |
| Pager.NulNameRead | Pager/vm_helper.cpp:84-98 | a scan that reads a name starting with such a NUL reads exactly "\0", in the starting state, with no fault |
| Pager.MapFileReadsNul | Pager/vm_pager.cpp:165-200 | the file branch of `vm_map` does not return nullptr for a name whose first character is a readable NUL, and binds the page to "\0" in the starting state |
| Pager.MapFileRefused | Pager/vm_pager.cpp:138-172 | a full arena or a name address outside the mapped arena gives nullptr and leaves the state alone |
| Pager.MapFileUnnamed | Pager/vm_pager.cpp:174-180 | a name read that throws gives nullptr in the state the read left |
| Pager.MapFileBound | Pager/vm_pager.cpp:181-199 | binding a name that was read gives the next page's address and the state `BindFileSpec` describes, one page further on |
| Pager.Manager.ReadNext | Pager/vm_helper.cpp:80-96 | a turn that succeeds reads the next character at the next address, inside the mapped arena, in the state its own read fault (`ReadAttempt` from the state the turn began in) left, extending the text and the chain read so far; a turn that fails ends the scan as `ScanFails` describes |
| Pager.Manager.FindFilename | Pager/vm_helper.cpp:72-99 | on success the name is read up to and including its only NUL, each character being what the process could read at that address (`NameRead`) in the state the read of that character left, the first read starting from the old state and each later one from the state the previous read left (`Chained`); None exactly where the source throws: the next address is past the mapped arena, or its read fault returned -1 (`ScanFails`) |
| Pager.Manager.Map | Pager/vm_pager.cpp:136-201 | `vm_map` dispatches: a null name gives `MapSwapSpec`, with no demand on the number of frames; a file name gives `FileMapped`, as for `MapFile` |
| FsText.JoinSplit | Filesys/helper.cpp:58-74 | joining the pieces of a text at a separator gives the text back |
| FsText.SplitJoin | Filesys/helper.cpp:58-74 | splitting separator-free pieces after joining gives the pieces back |
| FsText.SplitOn | Filesys/helper.cpp:58-74 | splitting gives at least one piece and no piece contains the separator |
| FsText.SplitKeepsPrefix | Filesys/helper.cpp:58-74 | extending a text never changes its pieces before the last one |
| FsText.Decimal | Filesys/helper.cpp:168 | `std::to_string` gives a nonempty digit string with a leading zero only for 0 |
| FsText.ValueOfDecimal | Filesys/helper.cpp:168 | `atoi(to_string(n)) == n` |
| FsText.DecimalOfValue | Filesys/helper.cpp:91-98 | every canonical digit string is `to_string` of its value |
| FsHelper.MatchesJoin | Filesys/helper.cpp:10-13 | every keyword-and-fields line joined by single spaces matches its pattern and splits back into its fields |
| FsHelper.MatchedIsJoin | Filesys/helper.cpp:10-13 | a matching message is its fields joined by single spaces |
| FsHelper.FindRequestType | Filesys/helper.cpp:79-85 | the result is type t iff the message matches t's pattern; the patterns exclude one another, so their order is irrelevant; otherwise "Unkown Message Type" |
| FsHelper.DecodeBlock | Filesys/helper.cpp:91-98 | a block string is accepted iff it is canonical (nonempty, digits, no leading zero), and then it is `to_string` of its value |
| FsHelper.DecodeDecimal | Filesys/helper.cpp:91-98 | decoding inverts `to_string` |
| FsHelper.StringToInt | Filesys/helper.cpp:91-98 | the checking loop computes `DecodeBlock` |
| FsHelper.CheckValidMessage | Filesys/helper.cpp:164-183 | a message passes iff it equals the rebuilt message, the request's fields joined by single spaces |
| FsHelper.SerializeIsJoin | Filesys/helper.cpp:164-183 | the rebuilt message is the request's keyword and fields joined by single spaces |
| FsHelper.CheckValidRequest | Filesys/helper.cpp:188-193 | a request passes iff block < 124, 1 <= \|username\| <= 10, 1 <= \|pathname\| <= 128, and the pathname starts with '/' and does not end with '/'; line 191's repeated username test lets no empty pathname through |
| FsHelper.MessageParsing | Filesys/helper.cpp:103-129 | an accepted message matches the pattern of its request's type |
| FsHelper.CheckValidMessageRedundant | Filesys/helper.cpp:126 | once the pattern matched and the fields decoded, the re-serialisation check always passes |
| FsHelper.ParsedIsWellFormed | Filesys/helper.cpp:103-129 | every accepted message yields a well-formed request and is that request's serialisation |
| FsHelper.ParseSerialize | Filesys/helper.cpp:103-129 | every well-formed request survives serialisation and parsing unchanged |
| FsHelper.ParsePath | Filesys/helper.cpp:58-74 | a parsed pathname has at least one name; failures are "Invalid Path" |
| FsHelper.ParsePathJoin | Filesys/helper.cpp:58-74 | a parsed pathname is "/" followed by its names joined by "/", each nonempty, at most 59 long, slash-free |
| FsHelper.JoinParsePath | Filesys/helper.cpp:58-74 | every nonempty list of valid slash-free names is what its pathname parses to |
| FsHelper.PathnameParsing | Filesys/helper.cpp:58-74 | the scanning loop over the slash-padded pathname computes `ParsePath` |
| FsHelper.FirstFree | Filesys/helper.cpp:133-138 | the lowest free block: free, and every lower block used; None iff no block is free |
| FsHelper.AllocationsIncrease | Filesys/helper.cpp:131-140 | after the lowest free block is taken, the next allocation finds a higher block or none |
| FsHelper.FindFreeDiskBlock | Filesys/helper.cpp:131-140 | the scan returns the lowest free block and marks it used, changing nothing else; with no free block it fails and changes nothing |
| FsHelper.SetDiskBlockStatus | Filesys/helper.cpp:145-148 | exactly one bitmap entry is set |
| FsHelper.FreeCountSet | Filesys/helper.cpp:131-148 | setting one entry changes the free count by exactly that entry's change |
| FsHelper.CheckUserValid | Filesys/helper.cpp:198-205 | access passes iff the inode is unowned or owned by the user |
| FsHelper.CheckBlockOverflow | Filesys/helper.cpp:210-214 | passes iff the block index is below the inode's size |
| FsHelper.CheckInodeType | Filesys/helper.cpp:219-223 | passes iff the inode has the expected type |

## Left out

- `file_read`, `file_write`, `disk_readblock`, sockets and output: the storage outcomes are choices, and the server's I/O is not part of this model.
- Raw addresses: memory is a sequence of pages and addresses are unbounded naturals. The 32-bit `unsigned int` wrap-around is not modelled. Cursors and page numbers stay below 256, and block numbers are taken as given.
- `vm_fault` line 124 assigns to a local copy of the page-table entry and has no effect, so the model has no such step.
- `Find_target_inode` (Filesys/helper.cpp:21-53): it reads inodes and directory blocks from disk under hand-over-hand locking. It is not part of this model. Its checks (`CheckUserValid`, `CheckInodeType`) are modelled.
- `TestPrint`: console output only.
- The mutexes `free_block_lock` and `disk_block_lock` are not modelled. Each allocator call is modelled as one atomic step.
- The `data` payload of `request_t` and the `blocks` array of `fs_inode` are not modelled; no helper reads them. `fs_inode.owner` is modelled as the C string it holds.
- The `type` field of a parsed non-Create request is uninitialised in the source; the model sets it to NUL.
- FsHelper.MessageParsing: `istringstream >>` extraction is modelled by splitting at single spaces. The two agree on every message that matched a pattern, and only such messages reach the extraction.
- FsHelper.StringToInt: `atoi` overflow is not modelled; the value of a digit string is unbounded. For a number of 2^32 or more, the source rejects the message in `Check_Valid_Message` ("Invalid Input Request Message!"), while the model rejects it in `Check_Valid_Request` ("Block Overflow"). Both reject it.
- `std::map` iteration order over the sharers of a block is not modelled. The pages a sharer lists are disjoint, so `Set_page_state`'s result does not depend on the order.
- Pager.Manager.EvictPopped: requeues the victim when its write-back fails, where the source throws (Pager/vm_helper.cpp:59-60) with the frame already popped off the clock. The model follows the corrected allocator (see Findings); the as-written step is `Eviction.EvictAsWritten`.
- Pager.Manager.FindPlace, Pager.Manager.EvictPopped, Faults.FaultSpec and the rows marked "(corrected allocator)" (Eviction.FindPlaceByEviction, FindPlaceStructural, FindPlaceResidency, Faults.FaultCoherent, FaultResolves, FaultKeepsRunning): these state properties of the corrected allocator, not of the code as written.
- Teardown.DestroySpec: `vm_destroy` leaves the page-table base register pointing at the erased process's table, a dangling pointer. The model sets the register to None, so no table is loaded, and no later step may read through it.
- Pager.Manager.Fault: requires the source's `assert(write_flag)` on the copy-on-write path (`FaultAllowed`) and a running process whose table is loaded.
- Pager.Manager.FindFilename, Pager.Manager.MapFile, Pager.Manager.Map (file branch only): require at least two physical frames. With frame 0 alone, a fault would reach the allocator's `assert(!clock_queue.empty())`.
- Pager.Manager.Destroy: requires the invariant. It reads the process's own physical table, which is the one the base register points at while the process runs.
- Lifecycle.CreateCoherent: only covers a child pid that is not yet registered. `vm_create` on an existing pid overwrites its tables (`Create` models that), and the invariant is not claimed then.

## Findings

| source | as written | input that shows it | evidently intended | confidence | as-written member | corrected member |
|---|---|---|---|---|---|---|
| Pager/vm_helper.cpp:44-61 | the clock head is popped (line 45) before the victim's write-back; when `file_write` fails the function throws (line 60) without pushing the frame back | no free frame, the first unreferenced clock head is dirty, and `file_write` returns -1 | the victim stays on the clock queue, so every frame 1..m-1 is still in exactly one queue and can be evicted later | high; not executed | Eviction.EvictAsWrittenLosesFrame | Eviction.EvictKeepsFrame |
