# A verified model of SQLite's storage engine

This project models the parts of SQLite's b-tree layer (as shipped in SQLCipher) whose correctness depends on
several functions keeping a shared invariant, and proves what those parts are for. The language is Dafny 4.11;
`dafny verify dfyconfig.toml` checks the whole project.

| component | files | main result |
|---|---|---|
| STAT4 sampler | `IndexOrder`, `Stat4`, `Stat4Rank`, `Stat4Best`, `Stat4Accum` | one pass over a sorted index keeps at most mxSample samples whose counts are all exact at the end, and a group with no sample has no more rows than the group of any non-periodic sample |
| balancing | `BalancePacking`, `BalanceOrder`, `Balance` | the packing passes succeed exactly when the cells can be divided over the pages, and their outcome, filled from the left and evened out from the right, depends on the cells alone; the in-place rewrite equals a simultaneous one |
| page space | `PageLayout`, `PageBytes`, `PageFree`, `PageAlloc`, `PageDefrag`, `PageSpace` | every run of insertions and deletions on the bytes of a page behaves as on a plain list of cells |
| pointer map | `PtrMap`, `PtrMapStore`, `Relocate` | the vacuumed size is the right page for every page size and pending page; relocation renames one page and keeps the map exact |
| auto-vacuum | `AutoVacuum` | a vacuum at commit, whole or partial, and incremental vacuum leave the same database under other page numbers in a file of the right size, and never run out of room; places come from the stored freelist of `Freelist` |
| freelist | `FreelistShape`, `Freelist` | every run of allocations, frees, writes, commits and rollbacks on the stored list is a run of an abstract allocator that knows only which pages are in use and what is on them; a rolled-back transaction leaves no trace, although pages fetched without content are not journaled |
| overflow | `OverflowChain`, `Overflow`, `OverflowStore` | the split of a payload leaves the least possible space unused; what is written is what is read at any offset, with any state of the cache, before and after overwriting in place, and freeing gives back exactly the pages taken; pages come from the stored freelist and go back to it |
| cell header | `Bits`, `Varint`, `CellHeader` | every 64-bit integer is read back from its variable-length form by the reader that works with exclusive or, and a stored cell is parsed to the key, sizes and payload it was made from |
| shared cache | `SharedCache`, `SharedCacheRuns` | every run is a run of a transition function; one writer and exclusive write locks in every state of it; while a writer is pending handles only leave, and while one is exclusive none gets in; what begins are refused follows from the begins, locks and ends before them |
| mutexes | `BtMutex` | no cycle of waiting connections in any interleaving, and a waiting connection waits for one that can go on |
| bit vector | `BitvecTable`, `Bitvec` | three representations behave as one set |
| backup | `Backup` | pages already copied match the source between any two steps, a finished backup is a whole copy, after exactly the number of steps the sizes call for, and exactly which steps spoil that |
| renaming | `RenameEdit` | right-to-left editing in a fixed buffer is simultaneous substitution, and what is put between quotes is read back |

Conventions. Objects the source updates in place are classes; page buffers are arrays; lists and dictionaries are
`seq` and `map` fields. A database that the source would call corrupt is excluded by a well-formedness predicate,
and the branches that report corruption are kept and shown to be unreachable from there. What the pager, the
allocator or the operating system answers is a parameter. Page numbers and sizes are unbounded integers except
where a width matters (two-byte page offsets with 65536 stored as zero, the 32-bit distance of the allocator).

Findings.

- A backup step spoils its backup exactly if it passes over a page that differs because a pager answers BUSY or
  LOCKED for it, or if it has copied pages, is answered BUSY or LOCKED and is not attached to the source yet
  (`Backup.Handle.Spoils`, a condition on the state before the step and the pagers' answers;
  `Backup.Source.StepBackup`). Such a backup goes on to report success with a wrong page (`Backup.SkippedPage`,
  `Backup.CommitRetried` with `Backup.LostUpdate`). The finding is conditional on those answers: when pages are copied
  the destination is already locked for exclusive use, the pager's own BUSY comes from taking locks
  (src/pager.c:4112-4129), and restarting the log is asserted to meet none (src/wal.c:3995), so only a file system layer
  that answers a read, a write or a sync with BUSY can lead there.
- The STAT4 sampler compares an entry with aBest[i] only when it arrives, so aBest[i] is the best of the entries that
  end a group on one column more, which is the best of the whole group for every index exactly when i is the last
  sampled column (`Stat4Best.BestOnLastColumnOnly`).
- Its eviction needs a non-periodic sample. The pass comes to its end if and only if the scan completes fewer than
  mxSample periods (`Stat4Accum.Analyze`); otherwise the array fills up with periodic samples
  (`Stat4Accum.EstimateTooLow` for an estimate of zero). An estimate that is at least the number of rows is enough,
  and ANALYZE passes the exact number when STAT4 is collected (src/analyze.c:1154-1155).
- The loop that reads a cell's payload size is said to be equivalent to getVarint32 (src/btree.c:1301-1303). For a
  value that fits in 32 bits it is so exactly if the value is written in fewer than nine bytes or is less than 128, and
  for a larger one exactly if the 32 bits that are left are all ones (`Varint.SizeIsValue`; `Varint.SizeDiffers` and
  `Varint.SizeOverflows` are inputs). What the program itself writes is always of the first kind.

## Model

| member | source | states |
|---|---|---|
| Stat4Accum.Analyze | src/analyze.c:401-886 | for every sorted index the pass ends if and only if it completes fewer than mxSample periods of nEst/(mxSample/3+1)+1 entries, which an estimate of at least the number of rows ensures; then at most mxSample samples in index order, every count of every sample exact, periodic samples exactly the entries that complete a period, at most a third of mxSample under that estimate; if no sample is from a group, the array is full, and the group has no more rows than the group of any non-periodic sample on the columns it was kept for, and if as many, no fewer columns |
| Stat4Accum.Scan | src/analyze.c:401-886 | the same in terms of the invariants of the pass |
| Stat4Accum.EstimateTooLow | src/analyze.c:460-464 | with an estimate of zero, mxSample entries leave an array of periodic samples only, with nothing to evict |
| Stat4Accum.StatAccum.constructor | src/analyze.c:401-486 | statInit establishes the invariant of the pass |
| Stat4Accum.StatAccum.Push | src/analyze.c:702-779 | statPush keeps the invariant for one more entry if and only if that leaves fewer than mxSample periods: current counts are those of the last entry, aBest[i] is the best of the entries of the open group that end a group on one column more, retained counts are true or zero for open groups |
| Stat4Accum.StatAccum.CountNext | src/analyze.c:718-755 | counting the next entry leaves every nEq, nLt and nDLt of the current entry equal to its true count so far |
| Stat4Accum.StatAccum.TakePeriodic | src/analyze.c:757-764 | an entry is kept as a periodic sample exactly when it completes a period; it fails exactly when that makes mxSample periods |
| Stat4Accum.StatAccum.UpdateBest | src/analyze.c:766-772 | aBest holds, for each prefix length, the best of those entries of the open group that end a group on one column more |
| Stat4Accum.StatAccum.SamplePushPrevious | src/analyze.c:650-680 | when column c changes, every group on columns c and up is represented or outranked and every sample's counts there are final |
| Stat4Accum.StatAccum.OfferBest | src/analyze.c:655-661 | offering the best entry of a closing group accounts for that group |
| Stat4Accum.StatAccum.Offer | src/analyze.c:657-660 | the candidate is inserted exactly if there is room or it is better than a[iMin]; otherwise nothing changes |
| Stat4Accum.StatAccum.BackFill | src/analyze.c:670-679 | zeros on closed columns become the true counts of their groups |
| Stat4Accum.StatAccum.SampleInsert | src/analyze.c:558-640 | the outcome is one of: covered by a better open sample, an open sample upgraded, or appended with the least non-periodic sample evicted when full; the count of periodic samples follows |
| Stat4Accum.StatAccum.RefreshMin | src/analyze.c:628-639 | iMin is a non-periodic sample that is better than no other, in the full order; there is none exactly when all mxSample samples are periodic |
| Stat4Accum.FindUpgrade | src/analyze.c:571-595 | whether an open sample of the same group covers the candidate or is to be upgraded |
| Stat4Accum.FindMin | src/analyze.c:630-638 | a non-periodic sample that is better than no other non-periodic one, or -1 if every sample is periodic |
| Stat4.IsBetterPost | src/analyze.c:511-525 | the trailing comparison, from the column after the sample's own |
| Stat4.TiesBroken | src/analyze.c:511-525 | the trailing comparison goes by the first count in which the samples differ, whichever it is, and by the hash if there is none |
| Stat4.IsBetter | src/analyze.c:535-552 | the larger count at the sample's own column wins, then the lower column, then the trailing comparison |
| Stat4.BetterTransitive | src/analyze.c:535-552 | that order is transitive |
| Stat4.UpgradeNeverDemotes | src/analyze.c:580-595 | an open sample was kept for a longer prefix, so the candidate that upgrades it is better |
| Stat4.UpgradeKeeps | src/analyze.c:591-595 | upgrading keeps every closed group accounted for |
| Stat4.AppendKeeps | src/analyze.c:598-626 | appending, with or without eviction, keeps every closed group accounted for |
| Stat4.FillSettles | src/analyze.c:670-679 | filling zeros from the current entry gives the true counts |
| Stat4.AccountsAdvance | src/analyze.c:723-745 | what was final stays final when the next entry arrives |
| Stat4.PeriodBudget | src/analyze.c:460 | a scan no longer than the estimate has at most mxSample/3 periods |
| Stat4.PeriodicAtLeast | src/analyze.c:757-764 | every period has a retained periodic sample |
| Stat4Rank.UpgradedStands | src/analyze.c:575-595 | the open sample that is upgraded has every count from its new column on, as sampleIsBetter assumes |
| Stat4Rank.OfferedStands | src/analyze.c:558-626 | whatever an insertion does, every sample has the counts that comparisons read, and zeros are leading |
| Stat4Rank.FillKeepsLeast | src/analyze.c:670-679 | back-filling changes no comparison, so iMin stays least in the full order |
| Stat4Best.ChosenStays | src/analyze.c:766-772 | leaving aBest[i] alone keeps it the best eligible entry, counts included |
| Stat4Best.BetterIsChosen | src/analyze.c:766-772 | replacing aBest[i] by a better entry keeps it the best eligible entry |
| Stat4Best.ChosenIsLargest | src/analyze.c:766-772 | no entry of the group is in a larger group on one column more than aBest[i] |
| Stat4Best.BestOnLastColumnOnly | src/analyze.c:766-772 | aBest[i] is the best entry of its group, for all indexes and seeds, if and only if i is the last sampled column |
| BalancePacking.Pack | src/btree.c:8572-8678 | pages come out if and only if some division over at most five nonempty fitting pages exists; then they are one, with szNew exact for every page, and the one that filling from the left and evening out from the right determines |
| BalancePacking.PackLeft | src/btree.c:8592-8634 | greedy packing from the left fails only when no division exists |
| BalancePacking.Shed | src/btree.c:8595-8613 | cells leave an overfull page until it fits, sizes following as signed differences |
| BalancePacking.Pull | src/btree.c:8614-8627 | cells are pulled from the next page while they fit |
| BalancePacking.Spread | src/btree.c:8647-8678 | evening out from the right keeps the division, gives every page a cell, and leaves every boundary where handing over one more cell would make the right page larger than what the left one keeps, but not before |
| BalancePacking.Even | src/btree.c:8648-8673 | only the boundary between the two pages moves, to the left, and stops where that rule says |
| BalancePacking.HandOver | src/btree.c:8653-8671 | the last cell of the left page is handed over for as long as the right page is empty or, outside bulk loads, does not come out larger than what the left page keeps, the last pointer not counted on the last page: so for every cell that moves, and not for the next; a bulk load moves one cell, to an empty page |
| BalancePacking.PackingUnique | src/btree.c:8572-8678 | where the pages end depends on the cells, the page size and the bulk flag only, not on how the cells were divided before |
| BalancePacking.PackedIsAhead | src/btree.c:8593-8634 | greedy packing reaches at least as far as any division, page by page |
| BalancePacking.DrainedIndivisible | src/btree.c:8674-8677 | a page left empty means no division exists |
| BalancePacking.DivisionHoldsAll | src/btree.c:8572-8678 | pages and dividers concatenate to the original cells |
| BalanceOrder.RewriteSiblings | src/btree.c:8944-8984 | every page is rewritten exactly once and holds its cells as they were before any page was touched |
| BalanceOrder.SafeToRewrite | src/btree.c:8951-8963 | the condition for rewriting a page now means no page still to be written wants a cell on it |
| BalanceOrder.AllVisited | src/btree.c:8944-8984 | the down-then-up schedule reaches every page |
| Balance.DivisionRewritable | src/btree.c:8944-8984 | a division chosen by packing is one the schedule can carry out |
| Balance.BalanceSiblings | src/btree.c:8572-8984 | packing and rewriting together: nothing touched when no division exists, otherwise every page holds its share of the division that packing determines |
| PageSpace.MemPage.ApplyAll | src/btree.c:7299-7519 | every run of insertions and deletions succeeds, keeps the page well-formed and equals at every moment the run on a list of cells, refusing exactly the insertions that do not fit; edits no caller asks for are left out |
| PageSpace.MemPage.ZeroPage | src/btree.c:2301-2331 | an empty page is well-formed with all its space free |
| PageSpace.MemPage.InsertCell | src/btree.c:7460-7519 | overflow exactly when the cell and its pointer exceed nFree, otherwise the cell is at its index and all others as before |
| PageSpace.MemPage.DropCell | src/btree.c:7299-7341 | the cell is gone and all others are as before |
| PageSpace.MemPage.AllocateSpace | src/btree.c:1846-1930 | with nByte+2 bytes free it never fails and the range is apart from every cell, freeblock and pointer: from the first freeblock that is large enough if that can be used, else off the end of the gap, after defragmenting only if the gap is too small |
| PageSpace.MemPage.PageFindSlot | src/btree.c:1774-1831 | the first freeblock with room, whole if less than four bytes would be left, else its end; none exactly if no freeblock has room or that one would be used whole with more than 57 fragment bytes on the page; the tiling is kept |
| PageSpace.MemPage.FreeSpace | src/btree.c:1945-2041 | the freed range joins its neighbours, fragments included, and the page is still tiled |
| PageSpace.MemPage.FindPlace | src/btree.c:1967-1982 | where a block belongs in the ascending list |
| PageSpace.MemPage.Coalesce | src/btree.c:1984-2016 | the merged block and the fragment bytes it absorbs |
| PageSpace.MemPage.DefragmentPage | src/btree.c:1640-1758 | the same cells in the same order, no freeblocks; the fragments stay if there are at most nMaxFrag bytes of them and one or two freeblocks, and are gone otherwise |
| PageSpace.MemPage.SqueezeOut | src/btree.c:1674-1710 | closing one or two holes by moving the cells above them keeps every cell |
| PageSpace.MemPage.Repack | src/btree.c:1712-1744 | copying every cell to the end of the page keeps every cell |
| PageSpace.MemPage.ComputeFreeSpace | src/btree.c:2118-2201 | recomputing free space from the bytes gives the incrementally kept number |
| PageSpace.FreeBytesFromCells | src/btree.c:2118-2201 | the free bytes depend on the cells alone, however they are spread |
| PageLayout.GapsAreFragments | src/btree.c:1774-1831 | what neither cells nor freeblocks cover is counted as fragments, byte by byte |
| PageLayout.FreeTiles | src/btree.c:1945-2041 | freeing a cell and coalescing keeps the tiling |
| PageLayout.SplitSlotTiles | src/btree.c:1808-1813 | taking the end of a freeblock keeps the tiling |
| PageLayout.WholeSlotTiles | src/btree.c:1794-1803 | taking a whole freeblock and counting its rest as fragments keeps the tiling |
| PageLayout.SqueezeTiles | src/btree.c:1680-1707 | moving the cells above a hole down over it keeps the tiling |
| PageFree.FreedPage | src/btree.c:1945-2041 | the bytes written by freeing are those of a well-formed page |
| PageAlloc.Inserted | src/btree.c:7496-7519 | after the pointer and the cell are written the page is well-formed with the new cell |
| PageDefrag.FinishedPage | src/btree.c:1746-1758 | after the header is rewritten the page is well-formed without freeblocks |
| PtrMap.FinalDbSize | src/btree.c:4169-4185 | the one ordinary page with exactly as many fewer ordinary pages before it as there are free ones, for every page size and pending page |
| PtrMap.CountIs | src/btree.c:1063-1075 | the number of ordinary pages in closed form, also when the pending page takes a pointer-map slot |
| PtrMap.CountUnique | src/btree.c:4169-4185 | an ordinary page is determined by that number |
| PtrMap.MapPlace | src/btree.c:1063-1075 | a pointer-map page is the first of its group, or the second after the pending page |
| PtrMap.EntryInPage | src/btree.c:1107-1123 | every ordinary page beyond the first has five bytes of its own on its pointer-map page |
| PtrMap.EntryAt | src/btree.c:1063-1075 | pointer-map pages are usable/5 + 1 pages apart from page 2 on, one later in place of the pending page, and entries follow each other from the start of the page |
| PtrMap.NoTwoMaps | src/btree.c:6811-6831 | after a pointer-map page comes an ordinary one, the pending page aside |
| PtrMap.NextPageIs | src/btree.c:6811-6836 | extension goes to the next page that may be handed out |
| PtrMapStore.Store.Put | src/btree.c:1087-1135 | the entry is stored and every other entry and page is unchanged; refused exactly for pages without an entry |
| PtrMapStore.Store.Get | src/btree.c:1146-1175 | what was last put, refused for pages without an entry or an invalid type |
| PtrMapStore.SlotsApart | src/btree.c:1117-1131 | writing one slot leaves the others on its page alone |
| Relocate.Db.RelocatePage | src/btree.c:3974-4046 | the database with one page renamed everywhere, and the pointer map the exact inverse of its pointers |
| Relocate.Db.ModifyPagePointer | src/btree.c:3910-3962 | changing the first match changes the page's only pointer to iFrom |
| Relocate.Db.SetChildPtrmaps | src/btree.c:3865-3895 | exactly the pages pointed to get the page as parent, with the right type |
| Relocate.RenamedIs | src/btree.c:3974-4046 | moving the page and changing one pointer is renaming it in every page |
| Relocate.StillExact | src/btree.c:3974-4046 | the updated map is exact for the renamed database |
| AutoVacuum.Vacuum.AutoVacuumCommit | src/btree.c:4232-4311 | a well-formed database is never called corrupt; all free pages, or as many as the application asked for if that is fewer, are gone from the file, none under incremental vacuum, and the pages are the same up to renaming those beyond the new end |
| AutoVacuum.Vacuum.IncrVacuum | src/btree.c:4195-4226 | the file is one ordinary page and one free page shorter, or nothing was free |
| AutoVacuum.Vacuum.VacuumAll | src/btree.c:4187-4226 | repeated to the end it leaves no free page and the file that a vacuum at commit leaves |
| AutoVacuum.Vacuum.IncrVacuumStep | src/btree.c:4068-4162 | the last page is out of use, moved up to the final size if it was in use, and everything before it is as it was; the stored freelist loses exactly the page taken |
| AutoVacuum.Vacuum.FindPlace | src/btree.c:4126-4143 | a page of the stored freelist within the final size, pages beyond it being dropped only when the whole freelist goes |
| AutoVacuum.Vacuum.Shrink | src/btree.c:4291-4293 | nothing is left beyond the final size and what was within it is where it was |
| AutoVacuum.RoomBelow | src/btree.c:4130-4144 | a page in use beyond the final size always finds a free page within it |
| AutoVacuum.RootsFit | src/btree.c:4088-4090 | a root page is never met beyond the final size |
| AutoVacuum.Composed | src/btree.c:4291-4293 | one renaming of pages after another is a renaming |
| FreelistShape.MembersCount | src/btree.c:6565-6572 | a list without duplicates denotes as many pages as it has entries |
| FreelistShape.DropEmptyTrunk | src/btree.c:6671-6680 | unlinking a trunk without leaves leaves a well-formed list |
| FreelistShape.PromoteLeaf | src/btree.c:6681-6716 | the first leaf of a trunk that is taken becomes the trunk of the others |
| FreelistShape.TookMembers | src/btree.c:6566-6786 | taking a page removes exactly that page |
| Freelist.BtShared.constructor | src/btree.c:3540-3577 | a new database of one page has an empty, well-formed freelist |
| Freelist.BtShared.Allocate | src/btree.c:6546-6854 | a free page is removed and only that, or the file grows to the next page that may be used; EXACT returns the page asked for if it is free, LE one not above nearby, and otherwise it is the first trunk if that has no leaves, or its first leaf or the one nearest to nearby; failure exactly when a search finds nothing; content is skipped exactly for leaves without content to keep and for new pages, and only where rollback does not need it |
| Freelist.BtShared.FromFreelist | src/btree.c:6571-6786 | the same when the list is not empty |
| Freelist.BtShared.Search | src/btree.c:6606-6786 | the walk stops at a wanted page if and only if the list has one |
| Freelist.BtShared.TakeFrom | src/btree.c:6634-6783 | one turn of the walk takes a page or shows that this trunk has no wanted one |
| Freelist.ClosestLeaf | src/btree.c:6720-6749 | the first leaf low enough, or the nearest by 32-bit distance |
| Freelist.NoneWanted | src/btree.c:6720-6760 | if the leaf chosen will not do, no leaf of the trunk will |
| Freelist.BtShared.GrowFile | src/btree.c:6787-6845 | the next page that is neither pending nor a pointer map, other pages untouched, content skipped only if the file was not shortened |
| Freelist.BtShared.FreePage | src/btree.c:6868-7001 | the page joins the list and nothing else does: as the last leaf of the first trunk if that has fewer than usable/4 - 8, else as a new first trunk; its map entry says free; leaves are remembered |
| Freelist.BtShared.SetHasContent | src/btree.c:661-675 | the page is remembered, or lies past the vector and counts as remembered |
| Freelist.BtShared.VacuumFreeTail | src/btree.c:4092-4107 | a free last page leaves the list and the file ends at the ordinary page before it |
| Freelist.BtShared.EndTransaction | src/btree.c:4432-4459 | commit: the next transaction starts here, with nothing remembered, and rollback will come back here |
| Freelist.BtShared.Rollback | src/btree.c:4552-4597 | size, pointer map, freelist and every page but free leaves are as when the transaction began, whatever is left on the pages that were not journaled |
| Freelist.BtShared.Take | src/btree.c:6546-6786 | a freelist that has what is asked for gives it, and exactly that page leaves it |
| Freelist.BtShared.Apply | src/btree.c:6546-7001 | one operation: a page granted was not in use and is then, and is free or next after the end of the file; a search fails only if no free page is one asked for, and the transaction is rolled back; a page freed is not in use any more; commit and rollback set and restore pages in use, their content and the size; nothing else changes, the content of pages in use included |
| Freelist.BtShared.ApplyAll | src/btree.c:6546-7001 | after any run of allocations, frees, writes, cuts, commits and rollbacks: a log from the first state to the last in which each entry follows from the one before by what its operation does, and the stored file is the last entry; all other pages are free |
| Freelist.InUseUntilFreed | src/btree.c:6546-7001 | in every such run a page in use stays so, is granted to nobody else and keeps the content last written to it until it is freed or the transaction is rolled back |
| Freelist.BtShared.Undone | src/btree.c:4552-4597 | any transaction that is rolled back leaves the freelist, the pointer map and every page but free leaves as they were |
| Overflow.LocalIsLeast | src/btree.c:1223-1232 | if some amount within the limits leaves whole overflow pages, the least such amount is kept on the page; otherwise the lower limit |
| Overflow.LeastUnused | src/btree.c:1210-1218 | the aim the source states: no other amount within the limits leaves less space unused on overflow pages, and of those that leave as little none keeps less on the page |
| Overflow.FewestPages | src/btree.c:1223-1232 | none needs fewer overflow pages |
| Overflow.LimitsOf | src/btree.c:3471-3474 | the limits of table leaves and of other pages, for every page size: in order, less than a page apart, and small enough for 16 bits |
| Overflow.LocalByte | src/btree.c:5190-5206 | the first bytes of a payload are those on the b-tree page |
| Overflow.SpilledByte | src/btree.c:5262-5350 | the others are on the overflow pages in order, usable - 4 on each, after the four bytes of the link |
| Overflow.PagesFit | src/btree.c:5222-5224 | the number of overflow pages is enough and not one too many |
| Overflow.Btree.FillInCell | src/btree.c:7106-7289 | cell and chain hold the data followed by the zeros, split where Overflow.LeastUnused says and using exactly the pages needed, if the allocator has them; if it runs out, all its pages are in use and linked; the file grows to the last new page of the chain |
| Overflow.Btree.WriteOut | src/btree.c:7204-7286 | the fill loop writes everything or stops for lack of a page |
| Overflow.Btree.NextChunk | src/btree.c:7206-7225 | the bytes written in one turn are the next bytes of the payload |
| Overflow.Btree.AddPage | src/btree.c:7232-7284 | a page, in the file or next after its end, linked to the chain with a true map entry |
| Overflow.Btree.AccessPayload | src/btree.c:5155-5358 | reading: any range equals that range of the payload, whatever prefix of the chain is cached, and a prefix is cached afterwards |
| Overflow.Btree.PutPayload | src/btree.c:5105-5358 | writing: the payload is the same but for the bytes written, nothing outside the cell and its chain changes, and links, pointer map and cache stay right; it is refused if and only if a page it gets to is open elsewhere, and then exactly the bytes before that page are written |
| Overflow.Btree.WriteWalk | src/btree.c:5262-5356 | following the chain from a known page writes over the right bytes and no others |
| Overflow.Btree.Walk | src/btree.c:5262-5356 | following the chain from a known page reads the right bytes and fills the cache in order |
| Overflow.Btree.Seek | src/btree.c:5208-5260 | starting at a cached page is starting at the page the offset falls on |
| Overflow.Btree.GetOverflowPage | src/btree.c:5037-5092 | the page guessed from the pointer map is the page the link names |
| Overflow.Btree.ClearCellOverflow | src/btree.c:7011-7077 | every page of the chain is freed once, in order, although freed pages may be overwritten at once |
| Overflow.Btree.Lifetime | src/btree.c:7011-7289 | a payload stored, read in any number of ranges, overwritten in part, read again and dropped: every read gives the bytes last written, the pages freed are exactly those taken, each once, and all other pages are untouched |
| OverflowStore.StoreCell | src/btree.c:7106-7289 | with pages drawn from the stored freelist or the end of the file: the payload is stored unless page numbers run out, its pages are in use and not free from then on, and no page is lost |
| OverflowStore.DropCell | src/btree.c:7011-7077 | the pages of a chain go back to the stored freelist, each once, and no page is lost |
| OverflowStore.Draw | src/btree.c:6546-6854 | pages allocated one after the other are distinct, were free, or extend the file without a gap |
| Varint.RoundTrip | src/util.c:1585-1661 | every 64-bit integer is read back from what is written for it, whatever follows, in at most nine bytes |
| Varint.ValueOf | src/util.c:1557-1574 | what any bytes mean: the integer ends with the first byte below 128 or the ninth; each byte is worth its low seven bits at 128 times the weight of the next, a ninth all its eight bits |
| Varint.Shortest | src/util.c:1557-1574 | what is written has as many bytes as the integer has digits to the base 128, or nine |
| Varint.PutVarint | src/util.c:1585-1621 | the bytes written are the base-128 digits, or eight of them and a whole byte |
| Varint.GetVarint | src/util.c:1627-1661 | the unrolled reader, which takes the marks out of a 64-bit word by exclusive or, gives the value of the digits and their number for any bytes |
| Varint.ReadSize | src/btree.c:1307-1316 | the loop for the payload size reads as many bytes as the integer has and their low seven bits, modulo 2^32 |
| Varint.SizeIsValue | src/btree.c:1301-1316 | for every integer, when the loop agrees with getVarint32: if the value fits, exactly when it is written in fewer than nine bytes or is less than 128; if not, exactly when the 32 bits left are all ones |
| Varint.SizeDiffers | src/btree.c:1301-1316 | nine bytes that hold 128 and that the loop takes for zero |
| Varint.SizeOverflows | src/btree.c:1301-1316 | five bytes that hold 2^32 and that the loop takes for zero |
| CellHeader.ParseCell | src/btree.c:1286-1411 | on any bytes that start with a written header: the key, the payload size, the local part, the size of the cell and where the payload starts |
| CellHeader.ParseCellNoPayload | src/btree.c:1269-1285 | an interior cell of a table: its key and its size |
| CellHeader.FillCell | src/btree.c:7106-7289 | payload size and key, or child page and payload size, then the local payload, padded to four bytes: exactly the size that parsing will find |
| CellHeader.StoreAndLoad | src/btree.c:7106-7289 | a record stored in a cell and looked up again has its key and its payload |
| SharedCache.BtShared.BeginTrans | src/btree.c:3628-3833 | refused exactly if the transaction is not open yet and the handle wants to write while one writes, a writer is pending or exclusive, another handle is in a transaction when exclusive access is asked for, or the schema is write-locked; refused, nothing changes; otherwise the new state in full, also when the pager fails after the transaction is entered |
| SharedCache.BtShared.QueryTableLock | src/btree.c:339-391 | refused exactly under another's exclusive transaction or if another handle has the table locked and one of the two locks is for writing, although only unequal lock types are compared; a refused write makes the writer pending |
| SharedCache.BtShared.SetTableLock | src/btree.c:411-462 | one lock per handle and table, strengthened or added, the rest unchanged |
| SharedCache.BtShared.LockTable | src/btree.c:11483-11499 | refused exactly if another handle has the table locked and one of the two locks is for writing |
| SharedCache.BtShared.ClearLocks | src/btree.c:477-517 | exactly the handle's locks are gone; the pending flag goes with the last other reader |
| SharedCache.BtShared.DowngradeLocks | src/btree.c:523-537 | exactly the writer's locks become read locks |
| SharedCache.BtShared.EndTransaction | src/btree.c:4370-4459 | the handle is out of its transaction without locks, or reading with read locks if other statements still read; other handles and their locks are as before; soundness is kept |
| SharedCache.BtShared.Apply | src/btree.c:339-537 | one operation of any handle keeps soundness and does what the transition function says |
| SharedCache.BtShared.ApplyAll | src/btree.c:339-537 | any run of operations by any handles: each state follows from the one before by the transition function, and every one is safe; over any stretch of the run in which a writer stays pending the handles in a transaction only become fewer |
| SharedCache.OnlyLeaves | src/btree.c:3668-3700 | while a writer is pending no operation lets a handle into a transaction |
| SharedCache.Refusals | src/btree.c:3668-3717 | what blocks a begin, in terms of the transactions and locks of all handles |
| SharedCacheRuns.ExclusiveAlone | src/btree.c:3668-3833 | in every run: from the moment a handle enters an exclusive transaction until it ends it or closes, no other handle is in a transaction and every begin by another is refused and changes nothing |
| SharedCacheRuns.ExclusiveOrigin | src/btree.c:3798-3802 | a cache is exclusive for no other reason |
| SharedCacheRuns.PendingHeld | src/btree.c:375-384 | a writer that was refused a lock stays pending for as long as it writes and is not alone |
| SharedCacheRuns.PendingOrigin | src/btree.c:375-384 | and a writer is pending for no other reason |
| SharedCacheRuns.RefusedBecause | src/btree.c:3668-3717 | in every run that starts with neither flag set, what each begin is answered follows from the transactions and locks of that moment and the begins, refused locks and ends before it |
| SharedCache.BtShared.Close | src/btree.c:2951-2978 | a handle that goes leaves a sound state |
| SharedCache.SafeState | src/btree.c:339-537 | at most one writer, write-locked tables locked by one handle, exclusive means all locks are the writer's, pending means a writer waits for a reader, every lock belongs to a handle in a transaction |
| BtMutex.StepKeeps | src/btmutex.c:71-152 | every step of every connection keeps the invariant on held and wanted mutexes |
| BtMutex.RunKeeps | src/btmutex.c:71-152 | so it holds after any run of interleaved steps |
| BtMutex.RunIsSafe | src/btmutex.c:71-152 | in every reachable state: outside the calls a handle is locked exactly if it is wanted, a handle is wanted as many times as it was entered less the times it was left, one holder per mutex, the cache names its holder, waits go upwards and never in a circle |
| BtMutex.WaitsAbove | src/btmutex.c:105-137 | a connection waits only for a mutex above all it holds |
| BtMutex.NoCycle | src/btmutex.c:105-137 | the wait-for graph has no cycle |
| BtMutex.Progress | src/btmutex.c:105-152 | a connection that waits is at the start of a chain of waits that ends at one able to take a step other than entering |
| BtMutex.Link | src/btree.c:2797-2821 | linking a handle keeps the list ascending |
| Bitvec.Node.constructor | src/bitvec.c:116-124 | an empty set |
| Bitvec.Node.Test | src/bitvec.c:131-155 | membership, for every number |
| Bitvec.Node.Set | src/bitvec.c:170-235 | the number is added and nothing else changes, through every change of representation |
| Bitvec.Node.Rehash | src/bitvec.c:210-230 | every value of the full table is in the children |
| Bitvec.Node.Clear | src/bitvec.c:243-275 | the number is removed and nothing else changes |
| Bitvec.Node.Probe | src/bitvec.c:146-153 | finds a value or the first empty slot from its home |
| Bitvec.Node.RebuildWithout | src/bitvec.c:257-274 | the table without one value |
| Bitvec.DivisorFits | src/bitvec.c:220-222 | children are strictly smaller and together cover the range |
| BitvecTable.EmptySlot | src/bitvec.c:193-211 | a table of at most NINT-1 values has an empty slot, so probing ends |
| BitvecTable.NotFound | src/bitvec.c:146-153 | an empty slot proves absence |
| BitvecTable.Stored | src/bitvec.c:231-234 | storing at the first empty slot keeps every value reachable |
| BitvecTable.BitmapSet | src/bitvec.c:185-188 | setting or clearing a bit changes one number |
| Backup.Handle.Step | src/backup.c:380-648 | if no page is refused, count pages further or to the end, and DONE exactly at the end; else just past the first refused page, with its code; a backup that is right stays right if and only if the step passes over no page that differs, and one that hears of changes goes on doing so if and only if the step does not deafen it; DONE means the destination is the source apart from header fields, with a new schema version |
| Backup.Handle.TryStep | src/backup.c:380-648 | the same in terms of the first page refused and the page where copying stops otherwise |
| Backup.Handle.CopyPages | src/backup.c:472-483 | if no page is refused, count pages further or to the end; in general the next pages are copied in order up to the first refused one, which is passed over; the pages passed are then right if and only if that one was |
| Backup.Handle.Finish | src/backup.c:499-623 | the stamped, truncated and committed destination: the schema version is the new one, and the format numbers are 2 for a write-ahead log and the source's otherwise |
| Backup.Handle.StepToEnd | src/backup.c:380-648 | while the source does not change and nothing is refused, steps of count pages end with DONE and a whole copy after exactly the size of the source divided by count, rounded up, or one for an empty source |
| Backup.Handle.WrongToTheEnd | src/backup.c:472-492 | a backup that is wrong about a page it has passed goes on to report success without that page |
| Backup.Handle.Update | src/backup.c:753-767 | a written page already passed is copied again, and a finished backup is not touched |
| Backup.Handle.Restart | src/backup.c:785-791 | starting over is right whatever the source has become |
| Backup.Source.Write | src/backup.c:745-772 | a write keeps every attached backup right |
| Backup.Source.Truncate | src/backup.c:472-492 | a shorter source needs no notice |
| Backup.Source.ChangedOutside | src/backup.c:785-791 | an external change keeps every attached backup right |
| Backup.Source.StepBackup | src/backup.c:472-492 | everything is in order after a step if and only if the step does not spoil its backup, which is a condition on the state before it and the pagers' answers |
| Backup.ApplyAll | src/backup.c:380-791 | any run of starts, steps that spoil nothing, writes, truncations and outside changes: each moment follows from the one before by what its event does to the source and to every backup, and at each one every backup in progress is right |
| Backup.FinishedWhole | src/backup.c:380-791 | in every such run a backup that has finished was finished by a step of its own, as a whole copy of the source at that moment, and has not been touched since |
| Backup.Source.Apply | src/backup.c:380-791 | one event: the source as the event makes it, the backup that is stepped as far as the pagers let it and whole if it finishes, the others told of changes |
| Backup.LostUpdate | src/backup.c:484-640 | any change to a page passed by any backup that has copied pages without being attached is lost, and the backup reports success |
| Backup.CommitRetried | src/backup.c:484-640 | a run after which a backup has copied pages without being attached |
| Backup.SkippedPage | src/backup.c:472-483 | a page refused for now is never copied, and the backup reports success |
| RenameEdit.EditSql | src/alter.c:1245-1343 | the statement with all tokens replaced at once, for any order of the list, inside the buffer |
| RenameEdit.TokenNext | src/alter.c:1069-1081 | the rightmost token, and the list without it |
| RenameEdit.EditStep | src/alter.c:1294-1337 | replacing the rightmost token extends the finished part to its start |
| RenameEdit.Growth | src/alter.c:1268-1284 | a replacement is longer than its token by at most the room set aside for it |
| RenameEdit.ReplacementFor | src/alter.c:1300-1325 | the new name bare if quotes are not asked for and the token starts like an identifier, else between quotes; for strings the same string between single quotes; a space after it if the same quote follows; the formatted print into the scratch buffer never cuts it off |
| RenameEdit.ReadsBack | src/util.c:305-326 | a replacement between quotes, followed by what follows its token, is read as the new name, or as the string that stood there |

## Left out

- Stat4Accum.Analyze: row counts are unbounded, WITHOUT ROWID keys are not distinguished from integer rowids, and the scan limit is zero, as when STAT4 is collected.
- Overflow.Btree.FillInCell: the pages the allocator will hand out are given as a list, drawn beforehand by OverflowStore.Draw; the source allocates each when it is needed.
- OverflowStore.StoreCell: page contents are the bytes of Overflow.Btree and, for the freelist, the words of Freelist.BtShared.
- Backup.Handle.OnePage: different page sizes are not modelled; the pagers' answers are parameters.
- Backup.Handle.Update: the pagers do not answer BUSY or LOCKED here, as the source asserts at src/backup.c:763.
- Backup.Handle.Finish: the change counters the pager itself writes to page 1 at commit are not modelled.
- Freelist.BtShared.Allocate: freelist pages are sequences of four-byte words; the pager's page limit is excluded by keeping page numbers below 2^32.
- Freelist.BtShared.Rollback: what the pager puts back is every page it journaled; savepoints are not modelled.
- AutoVacuum.Vacuum.IncrVacuumStep: page contents and pointer-map entries are those of Relocate.Db; the file of Freelist.BtShared has the freelist, the header and the entries of free pages.
- SharedCache.BtShared.BeginTrans: all handles share the cache; a private cache has one handle and no locks. The pager's own locks are one parameter.
- BtMutex.RunKeeps: entering and leaving all handles of a connection is a run of single enters and leaves in any order; the lists of handles do not change during a run; linking a new handle is a separate method.
- Bitvec.Node.Set: children are found by recursion instead of a loop, and the three union members are separate fields; memory exhaustion is not modelled.
- Relocate.Db.RelocatePage: pages are given as their cells and pointers; finding a cell's overflow pointer in its bytes is not modelled.
- RenameEdit.EditSql: collecting the tokens (parser, walker) is not modelled; quoting and dequoting are given by their effect.
- RenameEdit.ReplacementFor: the scratch buffers are strings; dequoting in place is given by its effect.
- Cell insertion through overflow cells (insertCell with nOverflow), balance_deeper and balance_quick: straight-line code around the packing and rewriting modelled here.
- Cursor movement, record comparison, schema handling, integrity check.
- Pager, WAL, VFS, journals, file locks, encryption.
