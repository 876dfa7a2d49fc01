# ArcadeOS: a model of its stateful cores

ArcadeOS is a bare-metal game console kernel. This Dafny project models its stateful algorithms and proves what their
comments promise. `dafny verify dfyconfig.toml` checks the whole project; every proof is written to stay within a small
resource limit, and functions that a proof does not need are hidden from it.

Each routine that works in place is a method of a class with the source's variables (statics that belong together are
grouped into one record). Its contract ties the new state to a function of the old one, or states the promise outright.
The promises about runs of many steps are lemmas about those functions.

| files | what they model |
|---|---|
| `Bytes`, `Wrappers` | bytes, sectors, little-endian fields, an optional value |
| `FatLayout`, `FatFrame`, `FatCommit`, `FatSave`, `FatBuild`, `FatCrash`, `FatName`, `FatRead`, `FatDriver`, `FatRound` | the FAT32 driver: crash atomicity of a save, the volume invariant, reading, round trips |
| `MkFat`, `MkFatName`, `MkFatMain` | the image builder, and that the driver finds every file it lays out |
| `PageTables`, `PagingSteps`, `Pmm`, `Paging`, `PagingLoss`, `Loader` | address spaces, physical pages, pointer checks, ELF loading |
| `Beam`, `BeamConsole`, `BeamReception`, `BeamSender`, `BeamNet`, `BeamHolders`, `BeamLoss`, `BeamRuns`, `BeamStation` | live game migration over a lossy network: what is transferred, and who holds the game |
| `Rewind`, `RewindConsole`, `Attract`, `AttractConsole` | the snapshot ring, the observation log, recorded demos |
| `HeapBlocks`, `Heap` | the first-fit heap with headers in the memory it hands out |
| `XhciRing`, `XhciDriver` | cycle-bit rings, both directions |
| `Session` | the online scoreboard |
| `Upload`, `UploadServer` | TCP reassembly of an upload |
| `Scheduler`, `TaskTable` | the round-robin scheduler and the task table |

## What turned out not to hold

Where the code does not do what its comments or its callers expect, the model keeps the code, and a lemma says exactly
when the promise holds.

- A file whose formatted name begins with 0xE5 is saved, reported as saved, and reads as deleted (`FatRound.SaveThenLoad`).
- A read whose offset + size passes 2^32 returns bytes behind the file (`FatRead.ReadExact`, `FatRead.ReadWraps`).
- Builder and driver do not make the same 11 bytes of every name: one splits at the last dot and drops characters, the
  other splits at the first and keeps them. `MkFatName.NamesAgreeExactly` says for which names they agree,
  `MkFatName.TwoDotsExactly` what that means for names with two dots, and `MkFatMain.BuildAndOpen` what the driver finds
  under a name.
- The beam can lose the game. An OFFER that comes late, after the console where the game resumed is idle again, opens
  that console once more, and a late chunk then overwrites the only copy. `BeamHolders.LostExactly` says exactly when
  the game is lost, `BeamHolders.NeverLost` that it never is while no OFFER comes late, `BeamLoss.LateOfferLoses` that
  after every successful beam a late OFFER can lose it, and `BeamLoss.CanBeLost` that this can happen from the start
  exactly if another console has the game installed. It may also end up on two consoles
  (`BeamHolders.TwoCopiesExactly`): when every ACK is lost the sender keeps its own (`BeamLoss.CanBeTwo`).
- A reception that fails does not leave the receiver's game at "its own fresh start", as a comment says, once a chunk has
  arrived that differs from it (`BeamConsole.FailureIsFresh`, and `BeamConsole.FailureChanges` for such a reception).
- A demo saved between a menu restore and the next present goes on behind the last frame of the session:
  `Attract.AttractIsExact` says that a demo shows the session exactly if the capture is not ahead of the timeline,
  `Attract.RestoreLeavesStale` that a restore leaves it ahead, `Attract.NoRestoreInStep` that play without one does not.
- Heap payloads are 8-aligned, not 16-aligned as a comment says (`Heap.Alignment`), and a request above 2^64 - 16 is
  rounded to nothing (`HeapBlocks.AlignUpCovers`).
- A controller that may rest on the link TRB stalls for good when `ntrbs - 1` TRBs are outstanding; it needs one place
  less (`XhciRing.CanStall`, `XhciRing.StalledForGood`, `XhciRing.RunSees`). The driver itself never has more than a few
  outstanding.
- Upload bytes that do not fit the request buffer in the segment that completes the headers are acknowledged and
  dropped (`Upload.SavedIsBody`, and `Upload.DroppedBytes` for a request whose saved file is not its body).
- A FIN that overtakes the data ends the connection, and the upload is lost (`Upload.EarlyFinLoses`); without a FIN a
  file is saved exactly when enough has arrived (`Upload.SavedExactly`).
- A kernel thread that returns from its entry function wakes nobody who waits for it (`Scheduler.ReturnOrphans`,
  `Scheduler.ReturnLeavesWaiter`). No thread of this kernel returns: the idle task and `task_run_app` loop for ever. Ids
  are not unique: task 0 and the first thread both have the id 0.
- exec's check that a segment lies in the app window adds in 64 bits: a header whose vaddr + memsz wraps is let in
  (`Loader.AdmittedExactly`, `Loader.WrappedHeader`), and then, with one exception, a page outside the window is mapped
  (`Loader.WrapsEscapes`).
- Where a place is not reserved by the allocator, mapping a page and then its neighbour can drop the first
  (`PagingLoss.MappingLost`); the app window is reserved, and the user stack on every machine below 3 GiB.

## Hypotheses

- Disk: sector writes are atomic, reach the medium in issue order, and succeed until power fails. Names are C strings.
  Data sizes leave room for one cluster below 2^32, as all callers of the source do.
- Paging: tables are named by page frame number; the CPU has no-execute. The kernel's own tables are those that
  `paging_init` builds, with memory mapped one to one.
- Beam: one sender, one session, distinct addresses; a message sent to one address is delivered to that console only.
  The network may lose, repeat, delay and reorder, timeouts may fire at any moment, and games play on in between.
- Rewind: a game's next memory is a function of its memory, one read of each pad and the clock it sees during a frame;
  that clock is the one of the last present. The real clock does not wrap, and nobody adopts another console's clock.
  The game has at most 1024 writable pages: a snapshot copies no more, so a larger game is not restored whole.
- xHCI: a controller that follows section 4.9.2 of the xHCI specification, and posts no event over an unread one.
- Upload: segments carry the bytes of one stream shorter than 2^32 under the sequence numbers of section 3.10.7 of
  RFC 9293, and the header parser is a function of the header bytes.

## Model

| member | source | states |
|---|---|---|
| FatLayout.ChainUnique | src/fat32.c:100-112 | a cluster starts at most one properly ended chain, so following the table is well defined |
| FatLayout.ChainAcyclic | src/fat32.c:100-112 | a chain that ends visits no cluster twice |
| FatLayout.WithData | src/fat32.c:577-581 | the entry the commit writes carries exactly the new first cluster and size, and keeps name and attributes |
| FatLayout.FindIs | src/fat32.c:465-507 | a slot is found exactly if it is the first live entry with the name, before any terminator |
| FatLayout.FindFree | src/fat32.c:465-507 | the first vacant slot: every slot before it is taken |
| FatFrame.FatPutRaw | src/fat32.c:411-432 | writing one table entry changes that entry alone and keeps its reserved top four bits |
| FatFrame.DataPutCluster | src/fat32.c:114-116 | writing one sector of a cluster changes no other cluster |
| FatFrame.Frame | src/fat32.c:398-408 | writes that leave every reachable cluster alone keep the volume invariant and every file |
| FatCommit.CommitFind | src/fat32.c:510-515 | after the one directory write the new name is found at its slot, and every other name where it was |
| FatCommit.CommitDirOk | src/fat32.c:577-585 | the directory stays sound: chains in range, ended, long enough, pairwise disjoint |
| FatCommit.CommitFiles | src/fat32.c:398-408 | the directory write replaces exactly one file of the file map and leaves every other as it was |
| FatCommit.CommitReach | src/fat32.c:577-593 | exactly the old chain leaves the reachable clusters and exactly the new chain joins them |
| FatSave.BuildingFiles | src/fat32.c:544-575 | while the new chain is being built every file reads as before, and only clusters of the new chain are lost to a crash |
| FatSave.ReleaseFiles | src/fat32.c:445-451 | freeing an unreachable chain changes no file |
| FatSave.JoinBlocks | src/fat32.c:563-574 | the zero-padded sectors of a save join to exactly the data saved |
| FatSave.BlocksPadded | src/fat32.c:563-568 | behind the data nothing but zeros are written |
| FatSave.SameEntriesSameTable | src/fat32.c:551-554 | a table whose entries are all back to what they were is the same table, sector for sector |
| FatBuild.AllocStep | src/fat32.c:435-443 | taking a free cluster keeps the new chain distinct clusters that were free before the save, and changes no other entry |
| FatBuild.LinkStep | src/fat32.c:556-558 | linking the new cluster behind the chain so far gives a properly ended chain, and leaves every cluster the old volume uses alone |
| FatBuild.TurnDone | src/fat32.c:546-575 | one turn of the save loop extends the new chain and its contents by one cluster |
| FatBuild.ClustersEnough | src/fat32.c:547 | the clusters a save takes hold the data, with less than a cluster left over |
| FatBuild.ClustersLeast | src/fat32.c:547 | and no smaller number would do |
| FatBuild.BuiltCount | src/fat32.c:549-555 | a chain built is never longer than the number of free clusters there were, and is exactly that long when none is left |
| FatCrash.PrefixIsCut | src/fat32.c:398-408 | a crash while the new chain is built shows the old files; what is lost is a first part of the new chain |
| FatCrash.SuffixIsCut | src/fat32.c:551-554 | a crash while a failed save gives its chain back shows the old files; what is lost is a last part of the new chain |
| FatCrash.CommitCuts | src/fat32.c:577-590 | a crash right after the directory write, or at any point while the old chain is freed, shows the old files with the one name replaced by the complete new data; what is lost is a rest of the old chain (a name that begins with 0xE5 changes no file and loses the new chain) |
| FatCrash.ReleaseIsCut | src/fat32.c:586-591 | a crash while the old chain is freed shows the new files; what is lost is a rest of the old chain |
| FatCrash.CommitLost | src/fat32.c:577-593 | allocated set and lost clusters right after the commit, exactly |
| FatCrash.CommitEnds | src/fat32.c:586-593 | once the old chain is freed the invariant holds, the allocated set has changed by minus the old chain plus the new one, and the name holds the new data with nothing lost (a name that begins with 0xE5: no file changed, the new chain lost) |
| FatCrash.UndoneIsSame | src/fat32.c:551-554 | a save that ran out of clusters and freed its partial chain leaves the table identical |
| FatName.FormattedAt | src/fat32.c:125-139 | the 11 characters of a name: up to eight before the first dot and three behind it, upper-cased, blanks for what is missing |
| FatName.Format83 | src/fat32.c:125-139 | the character loops compute that name in place |
| FatRead.ReadExact | src/fat32.c:211-248 | a read returns exactly the slice asked for, cut to the file length, if and only if offset + size stays below 2^32, or the offset is at the end, or nothing lies behind the file in its last cluster |
| FatRead.ReadWraps | src/fat32.c:220-222 | a concrete read for which the 32-bit sum wraps and bytes behind the file are returned |
| FatRead.OffsetPlace | src/fat32.c:223-236 | skipping whole clusters and then sectors reaches exactly the byte at the offset |
| FatDriver.Driver.constructor | src/fat32.c:342-396 | a fresh mount: nothing cached, the cached table sector agrees with table 0 |
| FatDriver.Driver.FatNextCluster | src/fat32.c:100-112 | the table entry of table 0, low 28 bits, whatever was cached |
| FatDriver.Driver.FatSet | src/fat32.c:411-432 | the entry is written in every copy of the table, the copies stay mirrored, and each write in between is seen by a remount as before or after the change |
| FatDriver.Driver.FatAllocCluster | src/fat32.c:435-443 | the first free cluster is taken and marked as a chain end; 0 exactly if none is free |
| FatDriver.Driver.FatFreeChain | src/fat32.c:445-451 | exactly the clusters of the chain become free, one after the other from its head |
| FatDriver.Driver.RootDirLocate | src/fat32.c:465-507 | finds an entry if and only if the directory holds one, and then the first, with its sector and index on disk |
| FatDriver.Driver.DirentWriteback | src/fat32.c:510-515 | one sector write that changes one directory entry and nothing else |
| FatDriver.Driver.BuildChain | src/fat32.c:544-575 | either a fresh chain that holds the data, every write on the way leaving a first part of it in use, or all free clusters taken and given back |
| FatDriver.Driver.UndoChain | src/fat32.c:551-554 | the partial chain is given back, every write leaving a last part of it in use, and the table is as it was before the save |
| FatDriver.Driver.CommitEntry | src/fat32.c:577-593 | the directory write, then the freeing of the old chain, every write crash-safe |
| FatDriver.Driver.Save | src/fat32.c:526-593 | for every volume that satisfies the invariant: it is kept; every medium left by a power cut after any sector write shows the old file map or the old map with this name replaced by the complete new data, with only a first part of the new chain or a last part of the old one lost (in a save that fails, a first or a last part of the new one); it succeeds if and only if a slot is free and the data fits the free clusters; the new chain is longer than the data by less than a cluster; on success the allocated set changes by minus old plus new chain; on failure table and directory are identical; the table copies stay mirrored |
| FatDriver.Driver.ReadImpl | src/fat32.c:211-248 | what a read returns for every offset and size, sector by sector as the loop copies it |
| FatDriver.Driver.Load | src/fat32.c:595-610 | None for a name the directory does not hold, else the bytes stored under it, cut to the buffer |
| FatDriver.Driver.SaveOrCut | src/fat32.c:526-610 | one save with or without a power cut and a remount is applied whole or not at all |
| FatDriver.Driver.Session | src/fat32.c:398-408 | over every run of saves, some cut short by power failures, each name holds the data of its last applied save and the invariant holds; without cuts the table copies stay mirrored |
| FatRound.SaveThenLoad | src/fat32.c:526-610 | a saved file loads back as saved if and only if its formatted name does not begin with 0xE5, and every other name is untouched |
| FatRound.DeletedName | src/fat32.c:482-505 | which names those are: exactly the ones whose first character is 0xE5 |
| FatRound.NoDeletedFound | src/fat32.c:482-505 | an entry under such a name is never found again |
| MkFat.GeometryOk | tools/mkfat32.py:72-79 | the table has an entry for every cluster and one spare sector, less than a cluster of the disk is left over, and the volume numbers are sound for every size the fields can hold |
| MkFat.StartOrder | tools/mkfat32.py:141-157 | files get disjoint, increasing cluster ranges |
| MkFat.FileFound | tools/mkfat32.py:141-169 | a file's directory entry leads to its chain, and the chain to its bytes |
| MkFat.LaidIsVolume | tools/mkfat32.py:131-203 | the built volume satisfies the driver's invariant |
| MkFat.LaidIsLookedUp | tools/mkfat32.py:131-203 | each name given, and no other, holds its file byte for byte |
| MkFatName.ShortName | tools/mkfat32.py:30-39 | 11 bytes for every base name: characters that are kept, with blanks only behind them in each part |
| MkFatName.NamesAgreeExactly | tools/mkfat32.py:30-39 | for every base name: builder and driver make the same 11 bytes if and only if nothing but blanks and dropped characters follows what both keep of the first part, and the kept characters behind the last dot are those behind the first |
| MkFatName.NamesAgree | tools/mkfat32.py:30-39 | builder and driver make the same 11 bytes of every valid 8.3 name, with or without a dot |
| MkFatName.TwoDotsExactly | tools/mkfat32.py:34-35 | of a name with two dots they make the same exactly if the first part fills its eight places and the other two begin with the same three characters |
| MkFatMain.FillTable | tools/mkfat32.py:131-157 | the loops give every file its linked run, leave the rest free, and fail exactly if the files do not fit |
| MkFatMain.FillData | tools/mkfat32.py:188-203 | root directory and files end up in their clusters, zero-padded, undisturbed by one another |
| MkFatMain.RootWritten | tools/mkfat32.py:134-137 | the root cluster reads back as label, file entries, zeros |
| MkFatMain.BuildImage | tools/mkfat32.py:62-203 | an image with mirrored tables that satisfies all of the above, or None exactly if the files do not fit |
| MkFatMain.MountsAsBuilt | tools/mkfat32.py:87-119 | fat32_init reads the builder's geometry out of the boot sector |
| MkFatMain.MountsOnly | src/fat32.c:358-376 | what is mounted bears the signature, the type string and the sector size, and its numbers are read from their fields |
| MkFatMain.BuildAndLoad | tools/mkfat32.py:62-203 | built, mounted and read: the driver loads each of up to 127 files byte for byte |
| MkFatMain.BuildAndOpen | tools/mkfat32.py:131-203 | a file opened by its own name is found if the two names agree, and otherwise nothing is found, or another file |
| PageTables.CloneTree | src/paging.c:280-288 | a copy of the kernel's PML4 is a tree of its own that shows the user nothing |
| PageTables.HungTree | src/paging.c:298-320 | hanging a fresh or copied table at an unused place keeps the tree well formed |
| PageTables.HungWalk | src/paging.c:298-320 | and changes the answer of no user walk |
| PageTables.LeafWalk | src/paging.c:323-360 | writing a leaf changes the walk of exactly the addresses of its page |
| PageTables.CpuAgrees | src/paging.c:389-413 | user_walk_leaf, which looks at the rights of the leaf alone, gives what the CPU grants over all levels (Intel SDM volume 3A, section 4.6) |
| PageTables.CpuReads | src/paging.c:389-413 | in any memory the walk reads where the CPU does, of 4 KiB and 2 MiB leaves alike, and for a write asks the leaf alone |
| PageTables.OtherTree | src/paging.c:280-360 | a process's tree and view depend on its own tables and the kernel's alone |
| Paging.WindowIsReserved | src/pmm.c:169-181 | because pmm_init keeps [4 MiB, 8 MiB) back, no page table can be taken for a shared kernel entry there |
| Paging.ReservedIsNeeded | src/paging.c:342-356 | a page table is told apart from the kernel's entry on whatever free page it comes to stand, if and only if the place is reserved |
| PagingLoss.MappingLost | src/paging.c:342-356 | at a place that is not reserved, once others have taken the free pages below the kernel's there, two mappings of neighbours drop the first |
| Paging.ReservedExactly | src/paging.c:247-261 | which places are reserved, where the kernel maps memory one to one |
| Paging.StackIsReserved | src/pmm.c:177-179 | the user stack's are if and only if the kernel maps nothing there, or the machine has no memory there, or the page at 0xBFE00000 is in use |
| Paging.SameIndices | src/paging.c:71-74 | two addresses have the same four indices exactly if they are on the same page, 48 bits deep |
| Paging.TellApart | src/paging.c:298-320 | the comparison of frames tells private tables from shared ones above the page directory |
| Paging.TellApartLeaf | src/paging.c:342-356 | and at the page directory, where kernel entries are 2 MiB pages |
| Paging.Isolated | src/paging.c:280-360 | mapping into one process changes nothing another process sees, and no word of its or the kernel's tables |
| Paging.LeafCovers | src/paging.c:389-413 | one leaf serves its whole 4 KiB or 2 MiB page |
| Paging.Paging.AllocTable | src/paging.c:80-86 | a zeroed table on a page that was free, or 0 exactly if none is |
| Paging.Paging.CloneKernel | src/paging.c:280-288 | a process tree with an empty user view; no table that existed is touched |
| Paging.Paging.UserNextLevel | src/paging.c:298-320 | descends into the private table, splitting it off the shared one first if need be, without changing the user view |
| Paging.Paging.MapPageTo | src/paging.c:323-360 | computes the step function of the source; at a reserved place the page shows exactly the new mapping afterwards and every other page what it showed; only tables of this tree or fresh ones change; it fails only if memory is full |
| Paging.Paging.MapAll | src/paging.c:323-360 | over every run of mappings each page shows its last mapping that went through, and unmapped pages stay unmapped; all go through exactly if no request for a page was refused |
| Paging.Paging.UserAccessOk | src/paging.c:415-438 | accepts exactly if the range does not wrap and every byte of it can be walked to with the rights asked for |
| Paging.Paging.UserStrOk | src/paging.c:440-471 | returns n exactly if n is the first NUL below maxlen and bytes 0 to n are accessible |
| Paging.StringUnique | src/paging.c:440-471 | there is at most one such n |
| Paging.Paging.CollectUserRw | src/paging.c:486-510 | the writable user pages of the app window, then of the stack, in address order, cut at max |
| Paging.AllWritable | src/paging.c:486-510 | no writable page in the range is missed |
| Paging.PageBehind | src/paging.c:486-510 | the physical address of a page listed is where its bytes are |
| Paging.UserByteIs | src/paging.c:440-471 | the byte that the string check looks at is the one at the CPU's physical address |
| Pmm.CountFull | src/pmm.c:191-200 | the counter equals the number of pages exactly if no page is free |
| Pmm.Allocator.SetPage | src/pmm.c:24-26 | sets the bit of one page and no other |
| Pmm.Allocator.ClearPage | src/pmm.c:28-30 | clears the bit of one page and no other |
| Pmm.Allocator.AllocPage | src/pmm.c:191-200 | the lowest free page, or 0 exactly if there is none; the counter stays the number of set bits |
| Pmm.Allocator.AllocPages | src/pmm.c:261-284 | the lowest run of that many free pages, one included, or 0 exactly if there is none or none is asked for |
| Pmm.Allocator.FreePage | src/pmm.c:202-211 | frees that page alone |
| Pmm.Allocator.MarkRegion | src/pmm.c:37-61 | the pages of a region, rounded as the source rounds them |
| Pmm.Allocator.constructor | src/pmm.c:64-189 | after pmm_init a page is free exactly if an available region covers it and it is neither below the end of the bitmap nor in the window [4 MiB, 8 MiB) |
| Loader.FillPage | src/loader.c:121-140 | both copy cases of one page meet the flat definition: file bytes, zeros behind filesz and around |
| Loader.CoveredIsLoaded | src/loader.c:93-145 | when all pages of a segment are loaded, each byte read through the page tables is file[offset + k] for k below filesz and 0 behind, and the CPU lets user mode write it exactly if PF_W is set and execute it exactly if PF_X is |
| Loader.WindowFromPmm | src/pmm.c:169-181 | the loader's precondition is what pmm_init establishes |
| Loader.AdmittedExactly | src/loader.c:105-110 | the check lets in exactly the segments in the window, and those whose 64-bit sum wraps to an address no higher than its end |
| Loader.WindowNoWrap | src/loader.c:123-128 | for a segment in the window neither the page count nor a page's address wraps |
| Loader.WrapsEscapes | src/loader.c:123-128 | of the latter, exactly those get a page outside the window for which some page is counted and the window lies below them or the page count does not wrap |
| Loader.WrappedHeader | src/loader.c:105-128 | a header that is let in so, and has exec map on and on |
| Loader.Verdict | src/loader.c:93-111 | what the headers are answered with, the first that is not in the window deciding |
| Loader.Loader.LoadPage | src/loader.c:118-141 | one page is allocated, mapped and filled, and no page loaded before is disturbed |
| Loader.Loader.LoadSegment | src/loader.c:113-142 | all pages of a segment, for any alignment of vaddr |
| Loader.Loader.LoadAll | src/loader.c:93-144 | 0 if all segments lie in the window, -2 if the first that does not is turned away; if no request for a page was refused, all segments are loaded in the first case |
| Loader.Loader.Exec | src/loader.c:83-144 | for page-disjoint segments in the window with their bytes in the file: if no request for a page was refused, every segment is seen as the System V gABI describes it (chapter 5), with its rights; nothing but pages of the segments is ever seen; no table that existed before is touched |
| Beam.SanitisedIs | src/beam.c:215-221 | up to 15 characters before a NUL, printable ones kept and others replaced by an underscore |
| Beam.ReceivingKept | src/beam.c:245-267 | any packet of the stream, in any order and any number of times, keeps a receiver sound: counter equals the number of marked chunks, marked chunks are the sender's |
| Beam.EnoughIsAll | src/beam.c:258-260 | the counter reaches the need if and only if every chunk is marked, and then the memory is the sender's |
| Beam.ResumesFrozen | src/beam.c:320-334 | a commit leaves every byte, the nine registers and the clock as the sender froze them, and the other registers alone |
| BeamConsole.CommitsExactly | src/beam.c:302-318 | a receiver is ready to resume if and only if DONE and every chunk have arrived, in whatever order |
| BeamConsole.StreamCompletes | src/beam.c:123-153 | a receiver that gets every packet of a pass, in any order and any number of times, is ready to resume |
| BeamConsole.ServeTransfers | src/beam.c:300-346 | all attempts of a reception under any loss, repetition and reordering end with the frozen game and an ACK, or with registers and clock untouched |
| BeamReception.ServeCommits | src/beam.c:306-318 | a reception sends ACK if and only if one of its attempts hears DONE and every chunk has been polled by then, in whatever attempt |
| BeamReception.ServeSays | src/beam.c:306-341 | NACK after every attempt but the last of the reception, then ACK, or nothing after four |
| BeamConsole.FailureIsFresh | src/beam.c:306-345 | after attempts that all failed the memory is the receiver's own if and only if no chunk that was polled before the DONE of its attempt differed from it |
| BeamConsole.FailureChanges | src/beam.c:306-345 | wherever the two games differ, a reception of one chunk and no DONE fails and leaves a memory that is not the receiver's own |
| BeamNet.OneCommits | src/beam.c:155-201 | over every run at most one receiver commits, the sender ends in success only after that, and until it is over its copy is as frozen |
| BeamHolders.NeverLost | src/beam.c:155-201 | over every run in which no OFFER reaches a console that has committed, some console holds the game: the sender until it ends in success, and whoever committed, changed by its player alone |
| BeamHolders.HoldersExactly | src/beam.c:245-258 | who holds the game after any run: the sender until it ends in success, a console that committed unless a differing chunk has come since |
| BeamHolders.TwoCopiesExactly | src/beam.c:193-200 | sender and console both hold the game if and only if the console has committed, no differing chunk has come since, and the sender has not ended in success |
| BeamHolders.LostExactly | src/beam.c:193-200 | the game is lost if and only if the sender ended in success and a differing chunk has since come to the console it went to |
| BeamNet.ResumesExactly | src/beam.c:282-340 | over every run, whoever commits holds exactly the frozen game, and is the peer that the sender streams to |
| BeamNet.StepInv | src/beam.c:123-346 | every step of network, consoles, timeouts and running games keeps the protocol invariant |
| BeamLoss.LateOfferLoses | src/beam.c:211-251 | from every state a run can reach in which the sender has given up its copy, a late OFFER and a late chunk lose the game |
| BeamLoss.Deliverable | src/beam.c:155-201 | any console that has the game installed may get it: a run that ends in success |
| BeamLoss.CanBeLost | src/beam.c:211-239 | some run loses the game if and only if another console has it installed |
| BeamLoss.CanBeTwo | src/beam.c:182-200 | from the start, a run in which every ACK is lost leaves the game on both |
| BeamStation.Station.SetBit | src/beam.c:257-260 | marks one chunk in the byte array and no other |
| BeamStation.Station.Take | src/beam.c:205-272 | beam_input in place computes the packet function for every role and packet |
| BeamStation.Station.OnPresent | src/beam.c:282-346 | the attempt loop on the real variables: resumes with the frozen game or not at all |
| BeamStation.Station.StreamPages | src/beam.c:123-153 | every chunk of every page in order, then DONE with the registers; the game is not touched |
| BeamStation.Station.SendCurrent | src/beam.c:155-201 | answers 1 if and only if an ACCEPT came while it offered and an ACK was polled then, while it streamed, or in a wait before any NACK; streams if and only if an ACCEPT came and no ACK had; every pass is whole, goes to the console of the last ACCEPT polled, and is the last if it hears an ACK; the game stays as it was |
| BeamSender.SendAnswers | src/beam.c:155-201 | the same of the sender as a function of what it polls |
| BeamRuns.SendIsRun | src/beam.c:155-201 | what the sender does is a run of the protocol, the console it leaves is the sender at its end, and the answer is 1 if and only if the run ends in success |
| Rewind.SnapshotSlots | src/rewind.c:214-228 | the ring keeps its snapshots in order, drops at most the oldest, and appends the new one |
| Rewind.SnapshotKeeps | src/rewind.c:214-228 | a snapshot keeps the invariant, also when the ring is full |
| Rewind.RestoreKeeps | src/rewind.c:240-267 | a menu restore cuts the timeline back to the frame it restores and keeps the log, the spacing and the clock sound |
| Rewind.RestoreExactly | src/rewind.c:240-267 | which snapshot a restore goes back to: the one asked for, counted from the newest and cut to those held; it and the older ones stay, and memory, frame and clock are those of its moment |
| Rewind.FrameKeeps | src/rewind.c:356-465 | every frame of live play keeps the invariant, whether it ends in a snapshot, in a restore or in neither |
| Rewind.LogSuffices | src/rewind.c:49-57 | folding the game over the log from any snapshot held yields the timeline's memory at every later frame |
| Rewind.Span | src/rewind.c:49-51 | oldest snapshot to present spans at most 719 frames |
| Rewind.RunsReplay | src/rewind.c:214-267 | over every run of games, frames and restores: snapshots exactly 120 apart, span at most 719, the log reproduces every later frame, and the clock of the timeline never goes back |
| RewindConsole.Recorder.TakeSnapshot | src/rewind.c:214-228 | the ring arithmetic in place is the snapshot step |
| RewindConsole.Recorder.MenuRestore | src/rewind.c:249-267 | the restore step on the real variables, which `Rewind.RestoreExactly` describes |
| RewindConsole.Recorder.OnPresent | src/rewind.c:436-464 | likewise the present |
| RewindConsole.Recorder.PlayFrame | src/rewind.c:356-464 | one frame of a game on the real arrays extends or cuts the timeline as stated and keeps the invariant |
| Attract.CapturedAfter | src/rewind.c:356-376 | the capture explains the first 1024 frames of the timeline, restores included |
| Attract.NoRestoreInStep | src/rewind.c:436-442 | without restores the capture is never ahead of the timeline |
| Attract.DemoRoundTrip | src/rewind.c:590-645 | a demo survives its file |
| Attract.EncodedAt | src/rewind.c:590-597 | where magic, seed, count and frames are in the file |
| Attract.PlaybackFollows | src/rewind.c:413-422 | every frame played back is the captured frame, and the cursor stays inside the demo |
| Attract.PlaybackIsWhole | src/rewind.c:413-422 | when nothing stops it all frames are shown |
| Attract.PlaybackEnds | src/rewind.c:413-422 | the demo ends if and only if all frames were shown, or a button or the deadline stopped one |
| Attract.PlaybackExactly | src/rewind.c:413-422 | a demo shows frames of the timeline, each in its place, if and only if the capture is not ahead of it |
| Attract.RestoreLeavesStale | src/rewind.c:436-456 | a session of any length that ends with a menu restore leaves the capture ahead |
| Attract.AttractIsExact | src/rewind.c:397-422 | capture, save, load and replay of a game that depends on its seed tick and its observations show the session's frames if and only if the capture is not ahead of the timeline |
| AttractConsole.Attractor.CaptureToPlayback | src/rewind.c:356-645 | the same over the volume: a session captured by the hooks is saved exactly if it is long enough and there is room; armed and played back it shows its frames if and only if the capture was not ahead |
| AttractConsole.Attractor.SaveDemo | src/rewind.c:590-610 | succeeds exactly with at least 180 frames, a directory slot and clusters enough, and then the volume holds the demo under its name and every other file as before; else nothing changes |
| AttractConsole.DemoNameIs | src/rewind.c:117-122 | a demo has the first eight characters of its game and the extension DEM |
| AttractConsole.Attractor.Arm | src/rewind.c:612-645 | arms exactly if the volume holds a well-formed demo, and then with that demo |
| AttractConsole.Attractor.Advance | src/rewind.c:413-422 | the cursor moves as the player does, and stops at the end, at a button or at the deadline |
| HeapBlocks.AlignUpCovers | src/heap.c:26-28 | the rounded size covers the request if and only if the request is at most 2^64 - 16; above that it is 0 |
| HeapBlocks.FirstFit | src/heap.c:85-101 | the first block that fits, or none exactly if none does |
| HeapBlocks.TakeLive | src/heap.c:86-99 | kmalloc adds exactly the block it returns to the blocks in use, no more than a header and 16 bytes too long, what else it held being one free block behind it; the tiling keeps its length |
| HeapBlocks.StepKeeps | src/heap.c:78-123 | one operation adds or gives up one block in use, or none, and keeps the tiling tight |
| HeapBlocks.TakeTight | src/heap.c:86-99 | kmalloc leaves no two free neighbours |
| HeapBlocks.CoalesceTight | src/heap.c:112-122 | one pass of kfree leaves no free neighbours, whatever the list was |
| HeapBlocks.FreedLive | src/heap.c:106-123 | kfree gives up exactly the block it is given |
| HeapBlocks.FreeUndoesTake | src/heap.c:78-123 | kfree right after kmalloc restores the identical block list |
| HeapBlocks.BlocksApart | src/heap.c:14-18 | different blocks have no word in common, headers included |
| HeapBlocks.RunKeeps | src/heap.c:78-123 | over every run the blocks tile the heap, those in use are disjoint, and no two free ones are neighbours |
| Heap.LaidTake | src/heap.c:88-98 | the headers written by a split are the headers of the new list |
| Heap.LaidMerge | src/heap.c:115-117 | the header written by a merge likewise |
| Heap.Heap.constructor | src/heap.c:31-60 | one free block over the whole heap |
| Heap.Heap.KMalloc | src/heap.c:78-104 | fails exactly if nothing is asked for or no free block holds the rounded size; else the first such block, at most a header and 16 bytes too long, with the headers in memory and no payload in use touched |
| Heap.Heap.KFree | src/heap.c:106-123 | the freed and coalesced list, with the headers in memory and no payload still in use touched |
| Heap.Alignment | src/heap.c:18-20 | every payload is 8-aligned, and 16-aligned exactly if its header is not |
| Heap.FirstIsMisaligned | src/heap.c:18-20 | already the first allocation is not 16-aligned |
| XhciRing.PushKeeps | src/xhci.c:167-183 | after every push the ring holds the latest TRBs with the cycle bit of their lap, and the link the bit of the lap last finished |
| XhciRing.BitsAre | src/xhci.c:152-183 | which bits of the last word are the cycle and the toggle bit |
| XhciRing.FetchSees | src/xhci.c:152-183 | a consumer no more than a ring behind gets exactly the next TRB and nothing past the last, except when it rests on the link with the ring full to the last place |
| XhciRing.RunSees | src/xhci.c:152-183 | from ring_init on, over any number of laps the controller sees the pushed TRBs, each once, in order, and the next one if and only if it is not stalled; it never stalls if it leaves the link at once or at most ntrbs - 2 are outstanding |
| XhciRing.CanStall | src/xhci.c:152-183 | with ntrbs - 1 outstanding a run from ring_init on stalls a controller that rests on the link, and it never sees the TRBs of the last lap |
| XhciRing.StalledForGood | src/xhci.c:152-183 | no run changes anything once it is stalled |
| XhciRing.PollSees | src/xhci.c:186-202 | event_poll returns the next event exactly if there is one |
| XhciRing.EventsSeen | src/xhci.c:186-202 | from a blank ring on, over any number of laps event_poll gets the events, each once, in order, and the next one if and only if there is one |
| XhciDriver.TransferRing.constructor | src/xhci.c:152-164 | blank places and a toggling link that is not yet valid |
| XhciDriver.TransferRing.PushTrb | src/xhci.c:167-183 | the words written in place are the push |
| XhciDriver.EventRing.PollEvent | src/xhci.c:186-202 | the events posted, one by one |
| Session.Cleaned | src/session.c:26-37 | at most 12 characters, each screen- and JSON-safe |
| Session.SafeEnds | src/session.c:26-37 | the ends of the range of characters kept, and the two that JSON would trip over |
| Session.Scoreboard.CopyName | src/session.c:26-37 | the loop computes that |
| Session.Scoreboard.SessionSet | src/session.c:39-46 | one or two players with their defaults |
| Session.Scoreboard.GameOfTask | src/session.c:55-65 | computes the name that `Session.GameOfIs` describes |
| Session.GameOfIs | src/session.c:55-65 | the last path component, up to its first dot and to 11 characters |
| Session.Lowest | src/session.c:84-86 | no entry scores less than the one to be evicted |
| Session.ReportKeeps | src/session.c:67-106 | a report keeps the board an exact list of the best: unique keys, all-time bests, and whoever is missing is beaten or matched by a full board |
| Session.BestIsBest | src/session.c:67-106 | the all-time best is one reported score and no reported score exceeds it |
| Session.ReportEvicts | src/session.c:67-106 | an entry gives way only to its own better score, or on a full board, as the lowest, to a higher one |
| Session.BoardIsTop | src/session.c:67-106 | after any run of reports, evictions and re-entries included, the board is that list |
| Session.Scoreboard.ScoreReport | src/session.c:67-106 | the search and eviction loops in place do the report, or nothing for a score or game that does not count |
| Upload.FindBlankIs | src/net.c:41-46 | a place is found exactly if the first blank line is there and no NUL stands before it |
| Upload.FindBlankPrefix | src/net.c:1095 | a blank line found in what has come so far is the first of the whole stream |
| Upload.HeadersKeep | src/net.c:1088-1100 | in-order data before the headers are complete fills the request buffer with the stream, as far as it reaches |
| Upload.BodyKeeps | src/net.c:1077-1087 | in-order data of the body continues the upload exactly |
| Upload.HandleKeeps | src/net.c:1067-1107 | any segment of the connection, also a repeated or misplaced one, keeps the reassembly right |
| Upload.UploadGetsStream | src/net.c:730-761 | for any cutting, repetition and reordering a saved file is the beginning of what reached the buffer, under the name and length the headers gave |
| Upload.SavedExactly | src/net.c:1067-1107 | for any segments without a FIN a file is saved if and only if the headers were completed, ask for an upload, and as many bytes as they announce have reached the buffer |
| Upload.InOrderIsSaved | src/net.c:1067-1107 | an upload cut in any way that comes in order is saved if and only if its headers ask for one and as many bytes as they announce reach the buffer |
| Upload.FinEnds | src/net.c:1067-1116 | a FIN ends the connection, whatever its place in the sequence, and takes one number |
| Upload.EarlyFinLoses | src/net.c:1067-1116 | a FIN that overtakes the data loses the upload, whatever comes behind it |
| Upload.SavedIsBody | src/net.c:1089-1093 | that is the body behind the first blank line if and only if nothing was dropped when the headers completed, or the bytes that took its place are the same |
| Upload.DroppedBytes | src/net.c:1089-1093 | for all headers that fill a first segment and are taken for an upload: a request in three segments, in order, whose saved file is not its body |
| Upload.UploadIsExact | src/net.c:1067-1101 | requests whose headers complete within the 2047-byte buffer save exactly the first Content-Length bytes behind the first blank line |
| UploadServer.Server.FindBlankLine | src/net.c:41-46 | the scan of the buffer |
| UploadServer.Server.AcceptData | src/net.c:1077-1100 | both buffers filled in place |
| UploadServer.Server.HandleTcp | src/net.c:1059-1116 | the connection state machine on the real variables |
| UploadServer.Server.HandleSyn | src/net.c:1048-1060 | a SYN opens a fresh connection |
| Scheduler.PickedIsFirst | src/scheduler.c:40-50 | the first runnable slot cyclically after the current one, and the current one only if there is no other |
| Scheduler.KillLess | src/scheduler.c:67-88 | each kill leaves fewer tasks alive, so the recursion ends |
| Scheduler.ScheduleProgress | src/scheduler.c:36-108 | in one call a ready task is picked, or dies of a signal, or comes nearer its turn |
| Scheduler.ScheduleFates | src/scheduler.c:67-88 | what a call does to each task: it dies only of a deadly signal that it does not ignore, and a waiter goes on only if one it waits for died |
| Scheduler.SchedulePicks | src/scheduler.c:36-108 | the picked task is marked running and has no deadly signal, the one before is ready again; if nobody is picked no other task is runnable |
| Scheduler.SignalReaches | src/task.c:169-193 | a signal goes to the first live task with the id that task 0 waits for, and SIGINT and SIGKILL doom it unless it ignores them |
| Scheduler.SignalLost | src/task.c:169-193 | and to nobody if there is none |
| Scheduler.ExitEnds | src/syscall.c:96-119 | the current task is dead, who waited for it goes on, nobody else changes |
| Scheduler.CreateAdds | src/task.c:44-76 | a new task is ready under the next id in the first dead slot, never slot 0, or in one more, unless all are taken |
| Scheduler.ReadyWaitsLess | src/scheduler.c:36-108 | a task that stays ready sees fewer than 16 calls go by, however many tasks are created, recycled, block or wake in between |
| Scheduler.ScheduleOneRunning | src/scheduler.c:55-90 | no task but the current one is ever marked running |
| Scheduler.StepNoOrphan | src/syscall.c:96-119 | no task stays blocked on one that was ended, by exit or signal, after it began to wait |
| Scheduler.StepsNoOrphan | src/scheduler.c:77-83 | the same over every run |
| Scheduler.ReturnOrphans | src/task.c:22-34 | a thread whose entry function returns wakes nobody: no waiter is left behind if and only if another live task has its id, or nobody waits for it |
| Scheduler.ReturnLeavesWaiter | src/task.c:22-34 | a run from boot on after which a thread that returns leaves a waiter behind |
| TaskTable.Tasks.WakeWaiters | src/scheduler.c:77-83 | the wake-up loop |
| TaskTable.Tasks.FindNext | src/scheduler.c:40-50 | the search loop |
| TaskTable.Tasks.DoSchedule | src/scheduler.c:36-108 | the recursive routine in place is the schedule step |
| TaskTable.Tasks.ExitCurrent | src/syscall.c:96-119 | the current task dies and its waiters go on |
| TaskTable.Tasks.BlockCurrent | src/syscall.c:237-246 | the current task waits |
| TaskTable.Tasks.KillForeground | src/task.c:169-193 | the signal goes to the live task that task 0 waits for, or to nobody |
| TaskTable.Tasks.CreateThread | src/task.c:44-76 | the first dead slot, never slot 0, else a new one; -1 exactly if there is neither |

## Left out

- FatDriver.Driver.Save: disk errors other than a power cut, the guard against nested operations, and the flush at the end; the result of one table write is ignored by the source, so nothing is claimed under write errors.
- FatDriver.Driver.ReadImpl: the read lock and the VFS nodes around it.
- FatDriver.Driver.constructor: the checks of the boot sector are in `MkFatMain.Mounted`; a cluster size of zero, by which the source would divide, is refused there.
- MkFatMain.BuildImage: boot code, FSInfo and the backup boot sector are one parameter, the reserved region; the names come with the files, and more than 127 files, which would overflow the one root cluster, are outside the contract as they are outside what the builder can lay out.
- MkFatName.ShortName: base names in ASCII without a directory part; Python's Unicode letters are not part of this model.
- Loader.Loader.Exec: ELF header checks, the user stack and the jump to user mode; what exec does from a header on that is let in by a wrapped sum (the result is then None); when a request for a page is refused the source goes on and fills page 0, and nothing is claimed about the segments then.
- Paging.Paging.UserAccessOk: addresses below 2^47; the saved interrupt flag around the walk.
- Paging.Paging.MapPageTo: the TLB, and what a whole tree shows after mappings at places that are not reserved: there only the step function and `PagingLoss.MappingLost` say what happens.
- Beam.Input: a PAGE offset within 1024 of 2^32, for which the source's 32-bit sum would wrap; no packet of a session has one. PAGE, DONE and ACK do not check their source, so two senders at once are left out.
- BeamHolders.NeverLost: liveness of the retries, and a second session; what a player does with the game he holds, which includes leaving it.
- Rewind.RunsReplay: scrubbing, whose replay feeds the snapshot's own record twice and so is not frame-exact as coded; thumbnails, the on-screen age of a snapshot, and a frame counter that wraps after 2^32 presents.
- Rewind.LogSuffices: clock reads in the middle of a frame, which the source does not log.
- Heap.Heap.KFree: pointers that kmalloc did not return, or that were freed already; the source does not check them.
- Heap.Heap.constructor: how heap_init finds contiguous pages.
- XhciDriver.TransferRing.PushTrb: doorbells, memory barriers and the physical address returned, which is a position here.
- Session.Scoreboard.ScoreReport: loading and saving the board file.
- Upload.UploadIsExact: header parsing beyond "a function of the header bytes": the source scans the whole request buffer, so a Content-Length line in the body would count when the headers have none.
- UploadServer.Server.HandleTcp: RST, the segments sent in return, checksums, and the response text.
- Scheduler.ReadyWaitsLess: context switches, stacks and address spaces; a task that is created although its stack could not be allocated.
- Scheduler.StepNoOrphan: SYS_WAIT on a task that is gone already blocks for good; such waiters are kept apart as late ones.
- TaskTable.Tasks.CreateThread: the task id counter does not wrap.
- Boot code, interrupt tables, PCI, disk and network controllers, sound, graphics, menus, the launcher, games, the code generator: hardware or user interface.
- JSON building, BMP spectating, DHCP, ARP, ICMP, pipes, keyboard and UDP queues, the kernel log, the mixer, devfs, the RAM file system, mounts: they would only add easy members.
