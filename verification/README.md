# miniMM, verified

miniMM is a memory manager in user space: notes (shared memory objects with lazy
snapshots), frames over swap and files, address spaces with copy-on-write, an RCU
domain that publishes the mapping snapshots, and a server that hands notes to clients.
These modules model it and prove what it promises.

| module | models | main results |
|---|---|---|
| `Notes` | src/note.c | a run of any calls cannot be told from eager copies (`NoteStore.Run`); shrinking saves only cached pages and no descendant notices |
| `Frames` | src/frame.c | paging is invisible over every interleaving, waits included (`FrameStore.Run`, `BlockingPageIn`); reclaim is exact; slots are conserved; pinned frames stay |
| `Vma` | src/vma_tree.c | range lists are a canonical form; the fanout-16 index agrees with the list; first fit is exact |
| `PageTable` | src/page_table.c | the four-level radix table refines a map, with pruning and rollback |
| `Sharing`, `Tables`, `Layouts` | src/fault.c, src/fork.c, src/mapping.c, src/mapping_backing.c, src/tlb.c | the invariants that tie mappings, bindings, entries, counts, translations and frames together, and how each kind of change keeps them |
| `AddressSpaces` | src/access.c, src/fault.c, src/fork.c, src/mapping.c, src/memory_api.c, src/space.c | every operation states what becomes of every page of every space; what every run means, and isolation over it (`Machine.Run`); failed moves, copies and locks restore the entries |
| `Locking` | src/memory_api.c, src/page_table.c, src/frame.c | locked pages stay resident over every run (`RunWhileLocked`) |
| `Rcu` | src/rcu.c | no snapshot is destroyed under a reader, each exactly once, over every interleaving |
| `Server` | src/server.c | quotas, references, rights and capabilities over every interleaving of clients; no use after free; nothing leaks |

Code that changes state step by step is a class with methods (`NoteStore`, `FrameStore`,
`RadixTable`, `Machine`), and a loop is a loop.  Sections under a lock are atomic.  Where
threads race without a common lock (`Rcu`, `Server`), each atomic operation and each
critical section is one step of a state machine, and the theorems quantify over all
sequences of steps.  Whatever depends on the environment (memory, disk, clocks, random
capabilities) is an arbitrary choice or an argument, so a failure may come at every point
where the code checks for one.  Memory orders are taken as sequentially consistent.

How a page looks is given by its *origin* (`Sharing.Origins`): unmapped, a page of an
object (a note or a shared anonymous mapping), or bytes of the space's own.  Isolation
says that nobody else's actions change the origin of a page; only writes to the shared
object itself change what a shared page shows (`AddressSpaces.ObjectsChangeByWrites`).

`Frames` and `AddressSpaces` meet in two facts: the pins of a frame are the locked entries
that name it (`Tables.Counted`, part of `Machine.Valid`), and a pinned resident frame keeps
its slot (`FrameStore.Run`).  `Locking` puts them together: a page that is locked stays
resident over every run, with accesses and other locks coming and going.

## Model

| member | source | states |
|---|---|---|
| `Notes.NoteStore.Run` | src/note.c:433-1182 | every sequence of calls, with any failures of memory or files, leaves notes, rights, mappings, handles and frames as if every copy had been made at once; at every point of it reads returned what the eager notes held, new notes had new numbers, writes that succeeded were complete, refusals were the documented ones, and only notes without any owner went |
| `Notes.NoteStore.Step` | src/note.c:710-1182 | one call changes the eager picture as its eager counterpart does: at most its own note, one new snapshot, or notes it frees because nobody has them; it is made exactly by those entitled to it and answers what the eager notes say |
| `Notes.OthersUntouched` | src/note.c:710-1182 | no call changes what another note holds, or takes away a note that somebody has |
| `Notes.OthersUntouchedOver` | src/note.c:433-1182 | over every run of calls, a note that somebody has and that no call is about keeps its bytes: no write to a source, a snapshot or a sibling reaches it |
| `Notes.NoteStore.GetReadFrame` | src/note.c:433-472 | the walk over the ancestors returns what a reader sees, and whatever it caches on the way was visible already |
| `Notes.NoteStore.PreserveChildren` | src/note.c:474-494 | afterwards no child reads the page through this note, and no view has changed, even if it stops half way |
| `Notes.NoteStore.GetPrivateFrame` | src/note.c:497-531 | afterwards the page may be stored into: it is cached here and no child inherits it any more |
| `Notes.NoteStore.PreserveTruncatedChildren` | src/note.c:576-631 | copying only the pages that are cached along the ancestor chain, then clamping what children inherit, changes no view of any note; a failure on the way changes none either |
| `Notes.NoteStore.PreserveVisible` | src/note.c:594-621 | every page that is going away is either copied to all children that inherit it or reads as zeros |
| `Notes.NoteStore.Create` | src/note.c:658-714 | a new note reads as zeros, nothing else changes, and bad rights or sizes are refused |
| `Notes.NoteStore.Adopt` | src/note.c:269-326 | a note that stands on its own reads as its file, under a number never used before |
| `Notes.NoteStore.Copy` | src/note.c:716-762 | a snapshot reads like its source and no other view changes; no copy of a mapped or unreadable note |
| `Notes.NoteStore.CopyExternal` | src/note.c:633-656 | the page-by-page copy of an external note reads like its source, and an unfinished copy leaves no trace |
| `Notes.NoteStore.DropReference` | src/note.c:886-935 | the cascade frees only notes that no handle, mapping or child refers to, and no other view changes |
| `Notes.NoteStore.LastSync` | src/note.c:921-923 | the pages of an external note are in its file before it goes, if the write succeeds; nobody sees a difference |
| `Notes.NoteStore.FreeLast` | src/note.c:893-933 | a note that goes gives up its reference to its parent, and an external one leaves in its file what it showed, unless writing fails |
| `Notes.NoteStore.Release` | src/note.c:886-935 | a note goes with its last handle only, and with it those ancestors that nothing else holds; no other view changes |
| `Notes.NoteStore.Retain` | src/note.c:868-884 | one more handle and nothing else |
| `Notes.NoteStore.SyncPages` | src/note.c:533-553 | writing cached pages to the file is invisible, even where a write fails half way; on success all of them are there |
| `Notes.NoteStore.Writeback` | src/frame.c:413-442 | eviction of a cached page of a note is invisible to all notes |
| `Notes.NoteStore.Resize` | src/note.c:953-993 | the note keeps its first pages and grows by zeros; no descendant notices; a failure anywhere changes no view |
| `Notes.NoteStore.Truncate` | src/note.c:972-977 | the part of a shrink before the cut changes no view and leaves no child inheriting beyond the new end |
| `Notes.NoteStore.Pread` | src/note.c:995-1044 | the bytes delivered are those of the view, also when a later page fails |
| `Notes.NoteStore.Pwrite` | src/note.c:1046-1094 | exactly the completed prefix is written, to this note alone |
| `Notes.NoteStore.Pedit` | src/note.c:1115-1132 | like a write, and refused without both rights |
| `Notes.NoteStore.Flush` | src/note.c:1096-1113 | invisible, and on success every cached page is in the file |
| `Notes.NoteStore.Attach` | src/note.c:1134-1148 | a mapping keeps the note alive and changes no view |
| `Notes.NoteStore.Detach` | src/note.c:1150-1162 | a mapping that goes frees only notes without handles |
| `Notes.NoteStore.GetFrame` | src/note.c:1169-1182 | a frame handed to a mapping is one that no snapshot reads through, from then on |
| `Notes.NoteStore.MappedWrite` | src/note.c:1134-1182 | a store through a mapping changes that page of that note and reaches no snapshot |
| `Notes.CachingKeepsPage` | src/note.c:359-427 | caching pages that were visible already changes no page of any note |
| `Notes.StoreChangesOnePage` | src/note.c:474-531 | a store into a page that no child inherits changes that page of that note and no other page of any note |
| `Notes.SnapshotReadsLikeItsSource` | src/note.c:716-762 | linking a child without copying anything gives every page of the source |
| `Notes.CutResizes` | src/note.c:953-993 | cutting or growing a note whose children inherit nothing beyond the cut resizes its view and keeps all others |
| `Notes.ClampKeepsPage` | src/note.c:576-631 | children may stop inheriting pages that they own or that read as zeros |
| `Notes.UnlinkKeepsPage` | src/note.c:886-935 | a childless note can leave its family without a trace |
| `Notes.WritebackKeepsPage` | src/note.c:533-553 | what is in the file behind a cached page does not matter to any reader |
| `Notes.FreeOneCounts` | src/note.c:886-935 | when a note goes, the reference it held on its parent is the one to be dropped next: every count still has its owners |
| `Frames.FrameStore.Run` | src/frame.c:413-1209 | over any interleaving of sections under the store lock, only writes to a frame change what it holds, reads return what it holds, new frames are new and zero frames are zero; pins and references are counted section by section, and a resident frame keeps its slot as long as locks or accesses pin it, whichever of them come and go meanwhile |
| `Frames.FrameStore.Step` | src/frame.c:911-1209 | one section acts on the logical contents as its kind says, is refused if the bytes are not within the page, and creates only a frame that was not there; it counts the pins and references of every frame, and a frame that is pinned when it starts keeps its slot unless this very section frees it |
| `Frames.OnlyWritesReach` | src/frame.c:413-1209 | over every run of sections, a frame that is neither written nor freed keeps its page, whatever is created, paged out or reclaimed meanwhile |
| `Frames.FrameStore.BlockingPageIn` | src/frame.c:567-650 | however often a page-in waits and whatever runs meanwhile, the bytes that arrive are the frame's content at that moment |
| `Frames.FrameStore.Attempt` | src/frame.c:567-650 | one pass makes the frame resident or changes no content; it evicts only from a full store, and then the first eligible frame in replacement order; it waits only if a transient pin is in the way |
| `Frames.FrameStore.Install` | src/frame.c:626-648 | there is always a free slot at this point, and filling it changes no content |
| `Frames.FrameStore.AcquireSwapSlot` | src/frame.c:367-395 | a swap slot that no frame owns is claimed, and no content changes |
| `Frames.FrameStore.WriteBack` | src/frame.c:413-442 | afterwards the frame is clean or the error is reported; no content changes either way |
| `Frames.FrameStore.PageOut` | src/frame.c:474-495 | a pinned frame is refused; an evicted one gives its slot back and keeps its content |
| `Frames.FrameStore.ReclaimPage` | src/frame.c:539-550 | as paging out, and the reclaim is accounted for until the page comes back |
| `Frames.FrameStore.SelectVictim` | src/frame.c:497-537 | the victim is the least eligible frame in the order cold first, then oldest access, then smallest number; the scan count is the number of resident frames |
| `Frames.FrameStore.HasTransientVictim` | src/frame.c:552-565 | true exactly when some other resident frame is held by nothing but transient pins |
| `Frames.FrameStore.Reclaim` | src/frame.c:1108-1148 | without an I/O error exactly the first min(target, eligible) frames in replacement order go, with an error a prefix of them; the scan count is the falling sum of resident counts; no content changes and no pinned frame moves |
| `Frames.FrameStore.Create` | src/frame.c:652-709 | a new frame reads as zeros or as its file page, and no other frame changes |
| `Frames.FrameStore.Read` | src/frame.c:1006-1025 | returns the logical content and changes none |
| `Frames.FrameStore.Write` | src/frame.c:1027-1048 | changes the given bytes of this frame and nothing else |
| `Frames.FrameStore.Release` | src/frame.c:929-965 | the last reference takes the frame and its slots with it; otherwise only the count falls; no other frame changes |
| `Frames.FrameStore.Mark` | src/frame.c:967-1209 | pins, map counts, references and cold marks change as counted, contents never; the aborts are reached exactly where a count would fall below zero |
| `Frames.FrameStore.constructor` | src/frame.c:711-798 | the free stack holds every slot of the arena once |
| `Locking.LockedIsPinned` | src/page_table.c:157-179 | an entry that is locked gives its frame a pin and a mapping |
| `Locking.LockedIsHeld` | src/page_table.c:157-179 | while entries lock a frame, in turn or together, it is pinned throughout and no release is its last |
| `Locking.RunWhileLocked` | src/frame.c:474-537 | no run of the store, with accesses, reclaims, unlocks and unmaps through other entries in it, moves a resident frame that some entry locks |
| `Locking.LockResident` | src/memory_api.c:412-444 | the pin comes before the last residency check, so a page that is locked successfully is resident and pinned, whatever others do in between |
| `Frames.WriteBackIsInvisible` | src/frame.c:413-442 | whatever a write-back leaves on disk, no frame reads differently and clean frames still equal their backing |
| `Frames.EvictionIsInvisible` | src/frame.c:474-495 | a clean frame can leave the arena without any frame reading differently |
| `Frames.PageInIsInvisible` | src/frame.c:626-648 | a page read from its backing can enter the arena without any frame reading differently |
| `Frames.SwapSlotIsInvisible` | src/frame.c:367-395 | a swap slot that holds garbage may be claimed for a dirty resident frame |
| `Frames.StoreChangesOneFrame` | src/frame.c:1027-1048 | a store into a resident slot changes one frame |
| `Frames.ReleaseRemovesOneFrame` | src/frame.c:929-965 | freeing a frame takes its slots from nobody else |
| `Frames.SlotsBounded` | src/frame.c:444-472 | free and resident slots always add up to the limit |
| `Frames.SwapGrown` | src/frame.c:367-395 | a new swap offset differs from all that are free or owned |
| `Vma.CanonicalIsUnique` | src/vma_tree.c:157-212 | two canonical range lists with the same meaning at every address are equal |
| `Vma.CoalesceCanonical` | src/vma_tree.c:157-182 | coalescing a well-formed list leaves nothing that could be merged |
| `Vma.CoalesceMeans` | src/vma_tree.c:166-182 | coalescing changes the meaning of no address |
| `Vma.CoalesceRanges` | src/vma_tree.c:166-182 | the in-place loop computes the coalesced list |
| `Vma.ChildCapacity` | src/vma_tree.c:78-87 | the capacity of a child is the fanout to the power of its height |
| `Vma.BuildNode` | src/vma_tree.c:89-134 | a node holds exactly its ranges in order, in at most sixteen slots a node, with all leaves at one depth and right separators |
| `Vma.BuildTree` | src/vma_tree.c:136-155 | any list of ranges gets an index that holds it exactly |
| `Vma.DescentKeeps` | src/vma_tree.c:316-326 | only the child below the first separator above an address can map that address |
| `Vma.FromRanges` | src/vma_tree.c:185-212 | a snapshot is the canonical, indexed form of what its ranges mean |
| `Vma.Lookup` | src/vma_tree.c:301-346 | descent and binary search find the range that maps an address, or that none does |
| `Vma.SearchLeaf` | src/vma_tree.c:328-345 | the binary search in a leaf is exact |
| `Vma.FindNext` | src/vma_tree.c:348-368 | the range at an address or the first one after it: nothing in between is mapped |
| `Vma.Insert` | src/vma_tree.c:396-455 | pointwise: the range means what it says and every other address keeps its meaning; refused exactly if an address of it is mapped |
| `Vma.Remove` | src/vma_tree.c:457-535 | pointwise: exactly the window is unmapped |
| `Vma.Protect` | src/vma_tree.c:537-642 | possible exactly if the whole window is mapped and allows the protection; pointwise, only the protection of the window changes |
| `Vma.CountPieces` | src/vma_tree.c:476-491 | the counting pass reserves exactly what the filling pass writes |
| `Vma.AllPiecesMean` | src/vma_tree.c:241-259 | splitting ranges around a window gives each address its old or its changed meaning |
| `Vma.AlignUp` | src/vma_tree.c:644-653 | the least multiple at or above a value, or none if it would overflow |
| `Vma.FindGap` | src/vma_tree.c:655-702 | exact first fit: the lowest aligned free place within the bounds, and none is reported only if there is none |
| `PageTable.RadixTable.Lookup` | src/page_table.c:68-89 | the walk finds exactly what the table means |
| `PageTable.RadixTable.Map` | src/page_table.c:214-276 | one more entry; a failed allocation, of a node or of the entry itself, gives back the very tree there was, and no inner node is left empty |
| `PageTable.RadixTable.MakePath` | src/page_table.c:233-255 | all missing nodes of the path are made, or none, also if only the entry cannot be allocated |
| `PageTable.RadixTable.Rollback` | src/page_table.c:269-275 | freeing the nodes made by this call in reverse order restores the tree |
| `PageTable.RadixTable.Unmap` | src/page_table.c:278-323 | exactly this entry goes, and with it every node that it leaves empty |
| `PageTable.RadixTable.Prune` | src/page_table.c:314-320 | freeing empty nodes upwards changes the meaning of no page and leaves none empty but the root |
| `PageTable.RadixTable.Update` | src/page_table.c:342-427 | one entry changes in place; setting attributes that it has already is no change, another frame always is |
| `PageTable.RadixTable.FindNextNode` | src/page_table.c:120-146 | the least mapped page below a node within the range, or none |
| `PageTable.RadixTable.FindNext` | src/page_table.c:439-456 | the least mapped page within the range, or none |
| `PageTable.RadixTable.UnmapRange` | src/mapping.c:167-178 | the loop over next pages clears exactly its range |
| `PageTable.RadixTable.constructor` | src/page_table.c:181-203 | an empty table |
| `PageTable.ShrinkUndoesGrow` | src/page_table.c:214-276 | freeing the node that was made last gives the tree before |
| `PageTable.GrowMeans` | src/page_table.c:214-276 | a new empty node changes the meaning of no page |
| `PageTable.ShrinkKeeps` | src/page_table.c:314-320 | freeing an empty node keeps the tree well formed, with at most its parent empty |
| `PageTable.EntryLeads` | src/page_table.c:120-146 | a page is mapped only if every entry on its path is there |
| `Sharing.WritableFrame` | src/fault.c:187-276 | a private entry that takes a write without a fault names a frame that no other entry and no object names; a shared one names the object's frame |
| `Sharing.PrivateWriteIsIsolated` | src/fault.c:187-276 | a write to such a private page changes that page of that space and no page of any space or object besides |
| `Sharing.SharedWriteIsShared` | src/mapping_backing.c:123-192 | a write to a shared page changes that page of the object, and no page its origin |
| `Sharing.RenamingKeeps` | src/fork.c:12-61 | entries may be dropped, moved or duplicated as long as no two pages could then write one private frame; every page shows what the page it stands for showed |
| `Tables.MappingCounts` | src/page_table.c:256-266 | a new entry is one more mapping of its frame, and one more pin if it is locked |
| `Tables.UnmappingCounts` | src/page_table.c:304-312 | an entry that goes takes one mapping, which is there, and its pin, which is there, with it |
| `Tables.RepinningCounts` | src/page_table.c:157-179 | a change of the lock flag moves exactly one pin |
| `Tables.MovingCounts` | src/page_table.c:363-407 | an entry that gets another frame takes its mapping and its pin from the old one to the new |
| `Tables.InvalidatedOk` | src/tlb.c:138-172 | after invalidation of a range whose entries changed, every cached translation equals its entry again |
| `Tables.InsertedOk` | src/tlb.c:116-136 | caching the current entry keeps every cached translation equal to its entry |
| `Tables.ContainsCookie` | src/vma_tree.c:380-394 | whether any address has the cookie |
| `Tables.Prune` | src/mapping_backing.c:264-282 | exactly the bindings whose cookie is still mapped stay, in order |
| `Tables.PrunedOk` | src/mapping_backing.c:264-282 | after pruning every mapped cookie has exactly one binding and every binding a mapping |
| `Layouts.AlignedLength` | src/mapping.c:91-103 | whole pages that hold the length, or refused |
| `Layouts.DroppingKeeps` | src/mapping.c:167-178 | where entries are dropped a page shows what its mapping starts with, elsewhere nothing changes |
| `Layouts.InsertedLayout` | src/mapping.c:486-500 | a mapping published with its new binding keeps mappings and bindings in agreement, and shows the backing from the offset on |
| `Layouts.RemovedLayout` | src/mapping.c:664-697 | after removal and pruning mappings and bindings still agree, and only the range is unmapped |
| `Layouts.ProtectedLayout` | src/mapping.c:699-749 | only the protections of the range change, and mappings and bindings still agree |
| `Layouts.CopiedLayout` | src/mapping.c:527-662 | each page of the new range has the segment of the page it copies |
| `Layouts.MovedLayout` | src/mapping.c:1034-1236 | after a move each page of the destination has the segment of the page it comes from, and the source none |
| `Layouts.KeptLayout` | src/mapping.c:1034-1236 | a move that keeps the source gives the destination a binding of its own |
| `Layouts.ProtectingKeeps` | src/mapping.c:699-749 | changing the protection of entries and mappings together keeps them in agreement and changes no page |
| `Layouts.CloningRenames` | src/mapping.c:278-346 | marking both sides of every cloned private page leaves no frame that two pages could write |
| `Layouts.MovingRenames` | src/mapping.c:856-1032 | moved entries show at the destination what they showed at the source, over whatever was there |
| `Layouts.MoveComplete` | src/mapping.c:952-1032 | placing the entries and clearing the holes makes the destination the exact shift of the source, holes included |
| `Layouts.FindSaved` | src/mapping.c:889-906 | the binary search finds a saved page exactly if it was saved |
| `AddressSpaces.Machine.Run` | src/mapping.c:348-1236 | over every run of all spaces: entries, mappings, bindings, counts, caches and frames agree; each action does to every page of every space and object exactly what it means, takes only unmapped pages unless told to replace, and each read returned the bytes there; a space that does nothing itself keeps the origin of every page, whatever the others do |
| `AddressSpaces.Machine.Step` | src/mapping.c:348-1236 | an operation does to all pages and objects exactly what it means, and changes where no page of another space comes from |
| `AddressSpaces.ObjectsChangeByWrites` | src/access.c:80-201 | over every run, a page of an object changes only if the note is written or a shared mapping of that very page is |
| `AddressSpaces.ObjectChange` | src/access.c:158-172 | one action changes a page of an object only as such a write |
| `AddressSpaces.Machine.MapPage` | src/page_table.c:214-276 | one more entry with its counts, or nothing |
| `AddressSpaces.Machine.UnmapPage` | src/page_table.c:278-323 | one entry less with its counts; counts never run below zero |
| `AddressSpaces.Machine.CommitAttributes` | src/page_table.c:157-179 | one entry changes in place, pins follow the lock flag |
| `AddressSpaces.Machine.ReplaceFrame` | src/page_table.c:363-407 | one entry gets another frame, mappings and pins follow |
| `AddressSpaces.Machine.GetFrame` | src/mapping_backing.c:123-192 | the one frame of an object page, or a fresh zero page that nobody else names |
| `AddressSpaces.FindBinding` | src/mapping_backing.c:253-262 | the binding of a cookie |
| `AddressSpaces.Machine.Populate` | src/fault.c:82-140 | a page gets its entry and no page of any space reads differently |
| `AddressSpaces.Machine.BreakCow` | src/fault.c:255-276 | the page gets a frame of its own with the same bytes, and no other page changes |
| `AddressSpaces.Machine.FirstTouch` | src/fault.c:188-254 | a page without an entry gets one from its backing, copied at once if a private note page is written; no other page changes |
| `AddressSpaces.Machine.Retouch` | src/fault.c:277-305 | an entry that suffices only gets its accessed and dirty flags, the frame stays, and it always allows what its mapping allows, so the second permission check never fires |
| `AddressSpaces.Machine.HandleFault` | src/fault.c:142-317 | the status is exactly that of the mapping and the access; at most this page becomes the space's own, with the bytes it had; afterwards the entry allows the access; over an entry that suffices only the access is recorded |
| `AddressSpaces.Machine.InvalidateRange` | src/tlb.c:153-172 | exactly the translations of the range go |
| `AddressSpaces.Machine.Refill` | src/access.c:27-78 | the walk ends with an entry that allows the access, or with the status of the fault; over an entry that suffices it only records the access, however often eviction interferes |
| `AddressSpaces.Machine.Translate` | src/access.c:104-156 | a hit and a walk have one and the same contract, and over an entry that a hit could use both leave the page table and the store alone and give the frame of that entry |
| `AddressSpaces.HitIsWalk` | src/access.c:125-140 | every walk from an entry that a hit could use ends in the very same page table and store |
| `AddressSpaces.WritingStores` | src/access.c:158-172 | a write through a usable entry stores exactly the data, into the space's own page or into the shared object |
| `AddressSpaces.Machine.ReadBytes` | src/access.c:80-187 | the bytes are those of the mapped pages up to the first that fails, whose status is returned; nothing changes |
| `AddressSpaces.Machine.WriteBytes` | src/access.c:80-201 | exactly the completed bytes are laid over private pages of this space or over the shared objects, page by page; no other page of any space changes |
| `AddressSpaces.Machine.UnmapPages` | src/mapping.c:167-178 | exactly the entries of the range go, with their translations |
| `AddressSpaces.Machine.Munmap` | src/mapping.c:664-697 | exactly the range is unmapped, or nothing happens |
| `AddressSpaces.Machine.FindRoom` | src/mapping.c:438-484 | a free place at the hint or at the first gap |
| `AddressSpaces.Machine.PlaceFixed` | src/mapping.c:415-437 | a fixed mapping replaces what is there, a non-replacing one is refused if anything is |
| `AddressSpaces.Machine.Prefault` | src/mapping.c:501-513 | prefaulting changes what no page shows |
| `AddressSpaces.Machine.Mmap` | src/mapping.c:348-525 | the range shows zeros, a new object or the note from the offset on; every other page keeps its origin; unless it is to replace, the range was unmapped; a failure changes nothing; arguments are refused as documented |
| `AddressSpaces.Machine.Mprotect` | src/mapping.c:699-749 | possible exactly if every page is mapped and allows it; only protections change, no page its origin |
| `AddressSpaces.Machine.OneHeap` | src/mapping.c:818-829 | true exactly if everything from the heap base on belongs to the mapping that is extended |
| `AddressSpaces.Machine.ExtendHeap` | src/mapping.c:790-854 | unmapped pages become zero pages of the heap and nothing else changes; unsupported exactly if the heap, one private anonymous mapping from its base on, does not end there |
| `AddressSpaces.Machine.UndoClones` | src/mapping.c:261-276 | a clone that fails half way leaves exactly the entries there were |
| `AddressSpaces.Machine.ClonePages` | src/mapping.c:278-310 | all entries of the range are cloned, or none |
| `AddressSpaces.Machine.MarkSource` | src/mapping.c:312-346 | exactly the private writable pages of the source become copy-on-write |
| `AddressSpaces.Machine.Fork` | src/fork.c:63-136 | every page of the child comes from where the parent's page comes from, and nobody else notices; a failure changes nothing |
| `AddressSpaces.Machine.MappingCopy` | src/mapping.c:527-662 | the new range shows what the old one shows, in pages that were free; a failure restores all entries; a missing binding is never met |
| `AddressSpaces.Machine.ReplacePte` | src/mapping.c:908-922 | over an existing entry it cannot fail |
| `AddressSpaces.Machine.MoveEntries` | src/mapping.c:856-887 | the entries are shifted, or all is as before |
| `AddressSpaces.Machine.Collect` | src/mapping.c:196-259 | every entry of the range, in order |
| `AddressSpaces.Machine.RestoreDestination` | src/mapping.c:924-950 | the entries are exactly what they were, with their counts |
| `AddressSpaces.Machine.MoveEntriesFixed` | src/mapping.c:952-1032 | the destination becomes the exact shift of the source, holes included, or all is as before |
| `AddressSpaces.Machine.Mremap` | src/mapping.c:1034-1236 | in place, pages beyond the new end go or show more of the backing; moved, the destination shows the first min(old, new) pages and more of the backing behind them, and the source is empty, or starts anew if it is kept; without a fixed destination only unmapped pages are taken, by a move or by growth; a failure changes nothing |
| `AddressSpaces.Machine.AllMapped` | src/memory_api.c:86-102 | true exactly if every address of the range is mapped |
| `AddressSpaces.Machine.Mlock` | src/memory_api.c:382-461 | every page of the range is locked, or every entry is exactly as before; no page reads differently |
| `AddressSpaces.Machine.SnapshotPages` | src/memory_api.c:306-325 | the entry of every page of the range, or that there is none |
| `AddressSpaces.Machine.RestoreLocks` | src/memory_api.c:338-380 | entries, pins and map counts are exactly what they were; it cannot fail |
| `AddressSpaces.Machine.Munlock` | src/memory_api.c:463-501 | exactly the lock flags of the range go; the status depends on the range alone |
| `AddressSpaces.Machine.Reclaimable` | src/memory_api.c:622-645 | true exactly if no entry of the range is locked, nor its frame pinned by another |
| `AddressSpaces.Machine.DropPages` | src/memory_api.c:578-595 | exactly the entries of the range go |
| `AddressSpaces.Machine.ClearFlags` | src/memory_api.c:597-670 | flags change, no page reads differently |
| `AddressSpaces.Machine.ReadAhead` | src/memory_api.c:503-576 | object pages are cached ahead and no page reads differently |
| `AddressSpaces.Machine.Madvise` | src/memory_api.c:672-709 | discarded pages start anew from their backing, refused exactly if a page is locked; other advice changes no page; paging out a page that is pinned through any entry is refused |
| `AddressSpaces.Machine.CreateSpace` | src/space.c:29-97 | a new space maps nothing and no other space changes |
| `AddressSpaces.Machine.Destroy` | src/space.c:99-123 | the space is gone and no other space changes |
| `Rcu.ReadersAreSafe` | src/rcu.c:91-193 | in every interleaving, what a reader has loaded is not destroyed while the reader is inside |
| `Rcu.DestroyedOnce` | src/rcu.c:132-193 | no snapshot is destroyed twice, nor while it is published, retired or in a thread's hands |
| `Rcu.NothingLeaks` | src/mapping.c:133-148 | once all threads are done and the list is empty, everything but the published snapshot has been destroyed, also after failed retirements |
| `Rcu.NeverAborts` | src/rcu.c:109-130 | the reader counter never runs below zero |
| `Rcu.NoLostWakeUp` | src/rcu.c:109-193 | a synchronizer waits only while a reader is inside or the last one is about to wake it |
| `Rcu.NotDoomedLater` | src/rcu.c:160-193 | while a reader is inside nothing new is set to be destroyed |
| `Rcu.StepKeepsInv` | src/rcu.c:91-193 | every step of every thread keeps the invariant behind the above |
| `Server.QuotasAreExact` | src/server.c:180-258 | in every interleaving, the byte and record counters equal what live records and requests under way account for, and stay within the limits |
| `Server.ReferencesAreExact` | src/server.c:229-349 | a record's references are the registry, handles, snapshot children and requests under way; a record is live exactly while there is one |
| `Server.HandlesStayWithinRights` | src/server.c:513-566 | a handle names a live record with no more than its rights, an id names one handle, and the handle count is right |
| `Server.CapabilitiesAreDistinct` | src/server.c:399-511 | registered capabilities are not zero and differ pairwise |
| `Server.LocksProtect` | src/server.c:1578-1634 | while a request holds a record's lock no other request holds it, frees the record or changes its size |
| `Server.CopiesAreChargedAlike` | src/server.c:304-349 | a snapshot is charged what its source is charged when it is made |
| `Server.NoUseAfterFree` | src/server.c:223-349 | no request ever meets a freed record, an underflowing counter or a table without the slot it counted on: what comes next is always possible |
| `Server.NothingLeaks` | src/server.c:243-258 | once no handle, registration or request is left, every record, slot and byte is back, whatever snapshots there were |
| `Server.StopFreesAll` | src/server.c:2199-2385 | once the clients are gone, stopping the server can always be carried through, and then every record, slot and byte is back, registered or not |
| `Server.ReleasingEnds` | src/server.c:243-258 | the cascade of releases of a client ends, however long the chains of snapshots are |
| `Server.StepBalanced` | src/server.c:180-349 | every step of any client keeps the books of bytes, slots and the references of every record |
| `Server.ActionKeepsInv` | src/server.c:180-645 | every step of any client keeps the invariant behind the above |
| `Server.TraceInv` | src/server.c:180-645 | every state of every run satisfies it |

## Left out

- The fixtures src/private_preview.c, src/stack_expand.c, src/page_remap.c, src/mseal_merge.c, src/mglru_reparent.c, src/rmap_unmap.c, src/uffd_move.c, src/hugetlb_reserve.c and src/percpu_populate.c: their steps are not among those of any run here.
- Sockets, threads, timeouts, message parsing and the command line (src/client.c, src/protocol.c, the rest of src/server.c): plumbing around the modelled bookkeeping.
- src/brk.c, src/stats.c, src/snapshot.c and capability formatting: easy beside the rest.
- File descriptors: a file is a map from page to bytes, and a failed write may leave anything in the page.
- C11 memory orders: steps are sequentially consistent.
- Saturating statistics and 64-bit generation counters: they are naturals; the note, frame and cookie numbers and the page and address limits have their real bounds.
- Aborts at SIZE_MAX references or pins: these counters are naturals, so the branches do not exist (`Rcu` has the bound on readers); the aborts at zero are modelled and shown unreachable where their callers are modelled.
- Adopt: the descriptors are left out; the file behind an external note is an argument, and no call of a run opens a new external note.
- Create: (`Frames.FrameStore.Create`) two frames of one file page of which one is written back do not occur; the page lists of notes see to that.
- Step: (`Notes.NoteStore.Step`) a call for a note, frame or mapping that the caller does not have does nothing here; the interface leaves such calls undefined.
- Frames.FrameStore: file resizing and the destruction of a store are left out; the free stacks and the frame list are sequences in fields instead of linked lists.
- BlockingPageIn: the number of waits is that of the given list of other sections, so a page-in that waits forever is not modelled.
- Machine: frames are never freed and have no residency here, since `Frames` shows paging to be invisible; a failing `EnsureResident` stands for it.
- Mlock: that success means resident is stated over the frame store, by `Locking.LockResident`.
- FindNextPage: works on the meaning of the table; `RadixTable.FindNext` shows that the radix walk has it.
- Refill: how often eviction wins the race for a frame in one call is an arbitrary number.
- Mmap: the rights and the size of a note are arguments; the size is the one at the time of the call.
- Madvise: paging out may also be refused for a transient pin, so the refusal is characterised one way only.
- msync, mincore, page queries and the fault trace ring: they read or write back without changing what any page shows.
- OpenNote: what a space sees of a note is its object page; `Notes` has the lineages behind it.
- The closing flag of a space: every operation then returns BUSY and does nothing.
- NoUseAfterFree: says that every request can take its next step, not that a scheduler lets it.
- Server: reads and writes of note bytes are left out, which change no bookkeeping.
