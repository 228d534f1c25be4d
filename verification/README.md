# Verified model of a FAT file system and of two containers of its media cache

This Dafny project models five components of the file system and proves properties of them.

| files | component |
|---|---|
| `RedBlackShape.dfy`, `RedBlackLinks.dfy`, `RedBlackSteps.dfy`, `RedBlackTree.dfy` | the red-black tree with parent pointers and two sentinels |
| `CheckDiskWords.dfy`, `CheckDiskBitCache.dfy`, `CheckDiskTable.dfy`, `CheckDiskStore.dfy` | storage of check-disk: FAT entries behind one cached group of three sectors, one bit per cluster behind five cached sectors; its FAT is the one that the file system reads |
| `Chains.dfy`, `CheckDiskScan.dfy`, `CheckDiskWalk.dfy`, `CheckDiskRepair.dfy`, `CheckDisk.dfy` | check-disk itself: marking chains, scanning directories, sweeping, copying the FAT |
| `CheckDiskStable.dfy`, `CheckDiskDevice.dfy`, `CheckDiskRoot.dfy`, `CheckDiskDepth.dfy`, `CheckDiskLabels.dfy` | what check-disk leaves alone, what reaches the device, where the root directory has to be, how deep directories may be nested, where volume labels may stand |
| `FatBytes.dfy`, `FatMedia.dfy`, `FatScan.dfy` | FAT entries in bytes for FAT12, FAT16 and FAT32; counting scans |
| `FreeClusters.dfy`, `FatAllocate.dfy`, `ChainDeletion.dfy`, `FatDelete.dfy`, `FatRuns.dfy` | cluster allocator, chain deletion, and runs of both |
| `FatSeek.dfy`, `FileRuns.dfy` | seeking with cached seek points; runs of seeking, appending and growing on one file |
| `DoubleLists.dfy`, `WeightedLru.dfy` | doubly linked list and weighted LRU list |
| `Division.dfy` | division with remainder |

`dafny verify dfyconfig.toml` checks all of it.

Objects that the source updates in place are classes, and their methods are proved against specifications on values;
what the specifications amount to is then proved as lemmas. In particular:

- The tree is a heap of nodes; ghost values give its shape (`Tree`) and a position in it (`Context`). Each rotation,
  recolouring or relinking is a small method that is proved to be a step on these values. The bodies of the loops of
  insert and deleteFixUp are split into such methods; the order of assignments is that of the source, including the
  write to nil's parent link, the top node that is read before any rotation, and the successor that is moved into place
  before the fix-up.
- The scan of check-disk computes `WalkRoot`, a function on records, marks and the directory buffer. It looks at each record
  in the buffer, which does not always hold the record's own sector. `CheckDiskScan` is about a scan that reads every record
  from its own sector, and `CheckDiskWalk.RootAgrees` says when the two are the same. `TreeOwned`, `ScanResult` and
  `RepairKeepsSurvivors` say what the scan achieves, and `CheckDiskStable` says what it leaves alone:
  a volume in order, and therefore a volume that has been repaired. `CheckDiskDevice` says when the device has the records
  that the scan has left.
- The FAT of a volume is a sequence of numbers that is computed from the bytes (or words) of its sectors. Shifts and
  masks by powers of two are written as division and remainder.

What is required of a volume that is checked (`Checkable`), beyond what the file system needs to read it at all:

- Each entry is at most dwTotalclusters or the exact end mark of `IsLastCx`: the code checks the range of start clusters only.
- The root directory's chain ends, because `ReserveCluster` does not look for loops.
- Some cluster's entry is not a link. With a root directory in clusters, as on FAT32, this follows from the former
  (`Chains.EndIsStop`).
  Otherwise one path could run through all clusters for ever, and `CheckCrossLinkFile` takes it for a file of
  dwTotalclusters clusters (`Chains.LoopPasses`); its contract here names this case.
- There are two FATs, and the root directory and the data lie behind both. The code computes the sectors so for every
  volume, but tests the number of FATs on FAT32 only. On FAT32 there is no fixed root directory in front of the data.
- The bits fit where they are stored. The code asserts one bit too few: the bit of cluster dwTotalclusters is used too.

Where the code differs from what one might expect, the model follows the code:

- The sweep stops before the last cluster.
- The scan begins to read the root directory behind the FATs, on FAT32 in cluster 2, although it follows links from the
  cluster that the boot sector names. If the root directory starts at another cluster, its first records are not seen and
  their chains are freed. `CheckDiskRoot.KeptExactlyAtFront` says that the root directory is safe exactly if it is the fixed
  one or starts at cluster 2; `Run` itself covers all volumes.
- After deleting a volume label the code does not ask for the label's sector again, although it may have loaded an earlier one
  to look for the parts of a long name: it does if all records in front of the label in its sector are such parts, or there are
  none, and the label is not the first record of its directory. The records behind the label in its sector are then judged by
  what that earlier sector has in their places; a good file among them can be left unmarked, and loses its clusters
  while its record stays. The theorems about survivors demand that labels which check-disk deletes do not stand there
  (`CheckDiskWalk.LabelsCalm`, part of `Rooted`). `CheckDiskLabels.LabelLoses` gives the volumes on which a file is lost, and
  `KeptExactlyCalm` shows that on such directories the condition is exact.
- A directory whose record stands at nesting level 16 is kept but not scanned: the records in it stay, and their chains are
  freed by a repair unless other records own them. `CheckDiskDepth.RepairKeepsAll` covers volumes without such directories,
  `ChainStaysExactly` says what is lost on the others, and `DeepFileLost` is an example.
- The directory buffer is written back in the end only if a record has been deleted. Otherwise records behind the end of a
  directory that the scan has cleared in the last sector stay on the device (`CheckDiskDevice.DeviceUpToDate`,
  `PendingLost`).
- `SeekPoint_FillSeekPoint` does not test its slot against the number of slots. `FatSeek.SlotRange` gives the exact condition
  on the file's size and the length of its chain; `SlotsExceeded` shows that one cluster more than the size needs can be
  too many.
- `WriteFatSector` reports failure when its group reaches into the second FAT, although it has written all of the group
  that lies in the first FAT. If the repair frees an entry in such a group, `CheckDisk` returns an error after the first
  FAT has been repaired and before the second is copied. `Run` states the exact condition, and `FitMeansNoCrossing` says on
  which volumes it cannot occur.
- A file's size in bytes that happens to equal its number of clusters passes the size test.
- `DeleteContent` on FAT16 takes every link above 0xfff0 for an end mark, so on volumes with that many clusters part of a
  chain may stay in use (`FatRuns.DeletedChain` gives the exact condition).
- The comment in wlru.h says that weight 0 inserts at the head; in the code no weight in range moves an entry by more than
  the window.

## Model

| member | source | states |
|---|---|---|
| `RedBlackTrees.RedBlackTree.constructor` | media/common/RedBlackTree.cpp:49-60 | a new tree is empty and satisfies every red-black invariant, with its two sentinels linked to themselves |
| `RedBlackTrees.RedBlackTree.LeftRotate` | media/common/RedBlackTree.cpp:94-134 | the links become exactly the rotated ones; no colour and no link of nil changes |
| `RedBlackTrees.RedBlackTree.RightRotate` | media/common/RedBlackTree.cpp:141-180 | mirror image of the above |
| `RedBlackLinks.RotationCorrect` | media/common/RedBlackTree.cpp:94-180 | a rotation of the links at a position is a rotation of the tree there: links, colours and in-order sequence still agree |
| `RedBlackTrees.RedBlackTree.InsertFixUp` | media/common/RedBlackTree.cpp:186-221 | hangs the node into that place |
| `RedBlackTrees.RedBlackTree.InsertLoop` | media/common/RedBlackTree.cpp:242-292 | the colour loop of insert ends, keeps the in-order sequence, and leaves no red node with a red child |
| `RedBlackTrees.RedBlackTree.Insert` | media/common/RedBlackTree.cpp:233-300 | the node lands directly behind all nodes whose keys are at most its own, all others keep their order, and every red-black invariant holds again |
| `RedBlackSteps.RecolouringPending` | media/common/RedBlackTree.cpp:248-254 | a red uncle moves the one possible red-red edge two levels up |
| `RedBlackSteps.SettledPending` | media/common/RedBlackTree.cpp:262-264 | the outer rotation removes the red-red edge |
| `RedBlackTrees.RedBlackTree.DeleteFixUp` | media/common/RedBlackTree.cpp:382-462 | the fix-up loop ends and restores the black heights, although the top node is read before any rotation; it also works when the pending node is nil |
| `RedBlackSteps.SiblingRaisedPending` | media/common/RedBlackTree.cpp:392-398 | after a red sibling has been rotated up the position still lacks exactly one black, and its sibling is black |
| `RedBlackSteps.NearRaisedPending` | media/common/RedBlackTree.cpp:407-413 | the inner rotation gives the sibling a red far child |
| `RedBlackSteps.FarRaisedComplete` | media/common/RedBlackTree.cpp:415-419 | the last rotation restores the missing black |
| `RedBlackSteps.SiblingReddenedPending` | media/common/RedBlackTree.cpp:400-404 | reddening the sibling moves the missing black one level up |
| `RedBlackTrees.RedBlackTree.SpliceOut` | media/common/RedBlackTree.cpp:477-494 | the only child, possibly nil, takes the place and the parent link of the node spliced out |
| `RedBlackTrees.RedBlackTree.TakePlace` | media/common/RedBlackTree.cpp:503-515 | the successor takes over position and links of the removed node before the fix-up runs |
| `RedBlackTrees.RedBlackTree.Remove` | media/common/RedBlackTree.cpp:466-544 | exactly the given node leaves the in-order sequence, its links are cleared, and every red-black invariant holds again; a node without links is left alone |
| `RedBlackTrees.RedBlackTree.Find` | media/common/RedBlackTree.cpp:67-87 | returns a node with the key exactly if there is one; the square of n + 1 bounds two to the number of rounds of its loop, which it counts |
| `RedBlackSteps.DepthLogarithmic` | media/common/RedBlackTree.cpp:67-87 | no position of a red-black tree with n nodes is deeper than 2 log2 (n + 1) |
| `RedBlackTrees.RedBlackTree.GetSuccessorOf` | media/common/RedBlackTree.cpp:304-339 | the next node in order, or null exactly at the end |
| `RedBlackTrees.RedBlackTree.GetPredecessorOf` | media/common/RedBlackTree.cpp:343-376 | the previous node in order, or null exactly at the start |
| `RedBlackTrees.RedBlackTree.NeighboursInverse` | media/common/RedBlackTree.cpp:304-376 | the results of the two methods undo each other, and are null only at the ends |
| `CheckDiskStore.Store.WriteFatSector` | filesystem/chkdsk/src/FatUtils.c:86-115 | the part of the group that lies in the first FAT is written, nothing else is; the result is false exactly if the group reaches into the second FAT |
| `CheckDiskStore.Store.LoadFatSector` | filesystem/chkdsk/src/FatUtils.c:29-76 | another group becomes the cached one after the dirty one has been written; the logical FAT does not change |
| `CheckDiskStore.Store.GetNextCxFromFat` | filesystem/chkdsk/src/FatUtils.c:157-214 | the entry that the file system reads from the bytes of the FAT, or BAD_CLUSTER exactly if the dirty group cannot be given up |
| `CheckDiskStore.Store.FreeCxFat` | filesystem/chkdsk/src/FatUtils.c:347-413 | the entry read from the bytes is zero afterwards, and those of all other clusters are as before; says whether the group is dirty |
| `CheckDiskStore.Store.SameTable` | filesystem/fat/platform/platform.c:38-90 | for every cluster the entry that check-disk takes out of its words is the one that the file system reads from the bytes of these words |
| `CheckDiskStore.Store.TableOnDevice` | filesystem/chkdsk/src/FatUtils.c:38-78 | with no write-back due these are the bytes of the sectors of the first FAT on the device |
| `CheckDiskBitCache.AgreesEvict` | filesystem/chkdsk/src/FatUtils.c:491-535 | a cached sector is given up without loss once it has been written back if that was due |
| `CheckDiskBitCache.AgreesFill` | filesystem/chkdsk/src/FatUtils.c:536-560 | reading a sector that is not cached keeps cache and device in agreement, with no sector cached twice |
| `CheckDiskBitCache.AgreesChange` | filesystem/chkdsk/src/FatUtils.c:466-490 | changing a word of a cached sector changes the logical content there |
| `CheckDiskStore.Store.SearchMatchingSector` | filesystem/chkdsk/src/FatUtils.c:583-613 | finds the valid slot that holds a sector, and -1 exactly if there is none |
| `CheckDiskStore.Store.SelectSlot` | filesystem/chkdsk/src/FatUtils.c:494-513 | the first unused slot, or one with the largest counter |
| `CheckDiskStore.Store.Fat32UpdateBit` | filesystem/chkdsk/src/FatUtils.c:455-575 | five cached sectors in front of the second FAT behave like those sectors alone, for get, set and free |
| `CheckDiskStore.Store.UpdateBit` | filesystem/chkdsk/src/BitIo.c:34-78 | a plain bit array on both storage forms: old value returned, one bit changed, no other; on FAT32 only sectors for bits are written |
| `CheckDiskWords.MarkedBit` | filesystem/chkdsk/src/BitIo.c:62-75 | setting or clearing a bit of a word changes no other bit |
| `CheckDiskStore.Store.ClearBits` | filesystem/chkdsk/src/chkdsk.c:209-294 | all bits are clear but those of clusters 0 and 1 |
| `CheckDiskStore.Store.CopyToSecondary` | filesystem/chkdsk/src/chkdsk.c:414-454 | the second FAT equals the first in the given number of sectors and keeps the others |
| `CheckDisk.Checker.CheckCrossLinkFile` | filesystem/chkdsk/src/chkdsk.c:548-622 | marks exactly the clusters of the chain and returns their number if the chain ends and was unmarked; otherwise returns -1 with the marks as before; the one exception, a path through all clusters without end, is named |
| `Chains.ConflictRejects` | filesystem/chkdsk/src/chkdsk.c:572-586 | a link to a cluster that is marked already, also by this very chain, rules out success |
| `Chains.DeadEndRejects` | filesystem/chkdsk/src/chkdsk.c:594-608 | a link to cluster 0 or 1 rules out success |
| `Chains.AllVisited` | filesystem/chkdsk/src/chkdsk.c:617-621 | when the count reaches its bound all clusters lie on a path that never ends |
| `Chains.LoopPasses` | filesystem/chkdsk/src/chkdsk.c:617-621 | for every volume size: clusters on one ring pass as a file of that many clusters, although the chain never ends |
| `Chains.StopPreventsLoop` | filesystem/chkdsk/src/chkdsk.c:617-621 | it cannot happen as soon as one entry is not a link |
| `Chains.EndIsStop` | filesystem/chkdsk/src/chkdsk.c:319-320 | a root chain that ends is enough for that |
| `Chains.CheckedWithStop` | filesystem/chkdsk/src/chkdsk.c:548-622 | then checking succeeds exactly for unmarked chains that end |
| `Chains.ChainNoRepeat` | filesystem/chkdsk/src/chkdsk.c:548-622 | a chain that ends visits no cluster twice |
| `CheckDisk.Checker.ReserveCluster` | filesystem/chkdsk/src/chkdsk.c:709-723 | marks the clusters of the root chain |
| `CheckDisk.Checker.ScanDirectory` | filesystem/chkdsk/src/chkdsk.c:637-698 | a directory passes exactly if it begins as it should and its chain can be marked |
| `CheckDisk.Checker.ScanFile` | filesystem/chkdsk/src/chkdsk.c:1038-1131 | a record with cluster and size stays exactly if its chain of n clusters can be marked and the size in bytes is n or from (n - 1) up to, but not including, (n + 1) clusters; then exactly the chain is marked, otherwise the record is deleted and no mark is left; one with neither stays, one with either is deleted |
| `CheckDiskWalk.FileStaysExactly` | filesystem/chkdsk/src/chkdsk.c:1038-1131 | the same condition in bytes for the specification of the scan, so that a file whose last byte is in the last cluster of a free chain stays |
| `CheckDisk.Checker.ScanFilesAndSubDirs` | filesystem/chkdsk/src/chkdsk.c:865-1203 | the scan of a directory and everything below it, down to the nesting limit, computes the specification function for records, marks, deletions and the directory buffer; records are looked at in the buffer, from the given first cluster on, and links followed from the start cluster |
| `CheckDiskScan.TreeOwned` | filesystem/chkdsk/src/chkdsk.c:865-1203 | if every record is read from its own sector, whatever survives in or below a scanned directory has a chain of its own that ends; the clusters newly marked are exactly those of the survivors |
| `CheckDiskWalk.RootAgrees` | filesystem/chkdsk/src/chkdsk.c:918-938 | check-disk reads every record from its own sector if misplaced labels stay in their sectors, or if nothing is deleted |
| `CheckDiskRepair.ScanResult` | filesystem/chkdsk/src/chkdsk.c:319-330 | with the root directory in front and misplaced labels calm, after the scan the marked clusters are 0, 1 and the pairwise disjoint chains of the root and of all surviving records |
| `CheckDiskRepair.RepairKeepsSurvivors` | filesystem/chkdsk/src/chkdsk.c:319-360 | with the root directory in front and misplaced labels calm, after a repair every surviving record and the root has its chain as before, no two chains share a cluster, and every entry in 2..dwTotalclusters-1 is unchanged if on such a chain and zero if not |
| `CheckDiskStable.InOrderKept` | filesystem/chkdsk/src/chkdsk.c:319-360 | on a volume in order the scan deletes no record and changes none |
| `CheckDiskStable.ScanPutsInOrder` | filesystem/chkdsk/src/chkdsk.c:865-1203 | after the scan every remaining record is good, only ends follow the end of a directory, and all chains are disjoint |
| `CheckDiskStable.ChangesExactlyDisorder` | filesystem/chkdsk/src/chkdsk.c:319-360 | the scan changes records exactly if the volume is not in order |
| `CheckDiskStable.RepairIdempotent` | filesystem/chkdsk/src/chkdsk.c:319-360 | checking the repaired volume again deletes nothing, changes no record and marks the same clusters |
| `CheckDisk.Checker.ReadDirSector` | filesystem/chkdsk/src/chkdsk.c:1362-1397 | another sector of records is loaded after a due write-back |
| `CheckDisk.Checker.DeleteFileRecord` | filesystem/chkdsk/src/chkdsk.c:1253-1351 | the record is marked in its own sector; the buffer ends up with the sector of the first record in front that is no part of a long name |
| `CheckDiskLabels.LabelLoses` | filesystem/chkdsk/src/chkdsk.c:1157-1164 | a fixed root directory with a misplaced label at the front of a sector, up to parts of long names, frees the cluster of the file behind it, whose record stays |
| `CheckDiskLabels.KeptExactlyCalm` | filesystem/chkdsk/src/chkdsk.c:1157-1164 | on such directories chains are kept exactly if the condition on labels holds, which is that another record stands in front of the label in its sector |
| `CheckDiskDevice.DeviceUpToDate` | filesystem/chkdsk/src/chkdsk.c:334-352 | the device has the records that the scan has left exactly if one has been deleted or the buffer is clean in the end; otherwise all but the last sector that was loaded |
| `CheckDiskDevice.SecondRunKeepsDevice` | filesystem/chkdsk/src/chkdsk.c:319-360 | unless a dirty buffer has been lost, a second run leaves the device as the first one has |
| `CheckDiskDevice.PendingLost` | filesystem/chkdsk/src/chkdsk.c:334-352 | a root directory of one sector that begins with an end is never changed on the device |
| `CheckDiskRoot.RootKept` | filesystem/chkdsk/src/chkdsk.c:231-233 | with misplaced labels calm, a root directory that is fixed or starts at cluster 2 keeps the chains of all that the scan leaves in place |
| `CheckDiskRoot.ElsewhereLost` | filesystem/chkdsk/src/chkdsk.c:231-233 | a root directory that starts elsewhere loses the clusters of a file in its first cluster |
| `CheckDiskRoot.KeptExactlyAtFront` | filesystem/chkdsk/src/chkdsk.c:231-233 | for all directory contents with misplaced labels calm, chains are kept exactly with the root directory in one of these two places |
| `CheckDiskDepth.SurvivesReached` | filesystem/chkdsk/src/chkdsk.c:897-902 | surviving is being reached within the nesting limit |
| `CheckDiskDepth.RepairKeepsAll` | filesystem/chkdsk/src/chkdsk.c:319-360 | with misplaced labels calm, if the directories left are nested at most 15 deep below the root, a repair keeps the chains of all records left in place at any depth, disjoint, and frees every other entry that is swept |
| `CheckDiskDepth.ShallowBefore` | filesystem/chkdsk/src/chkdsk.c:897-902 | that depth is not exceeded if it is not exceeded before |
| `CheckDiskDepth.AllSeenExactly` | filesystem/chkdsk/src/chkdsk.c:897-902 | the scan has seen all records left in place at any depth exactly if no directory it has reached has a record it has not |
| `CheckDiskDepth.ChainStaysExactly` | filesystem/chkdsk/src/chkdsk.c:466-483 | a chain outlives a repair exactly if each of its clusters belongs to a record that the scan has seen or is the last one |
| `CheckDiskDepth.DeepFileLost` | filesystem/chkdsk/src/chkdsk.c:897-902 | a file in a directory entered from level 16 stays listed but loses its cluster |
| `CheckDisk.Checker.ScanAndUpdateFat` | filesystem/chkdsk/src/chkdsk.c:466-483 | the sweep zeroes the entries of unmarked clusters below the last one, always succeeds, and leaves a group that reaches into the second FAT dirty exactly if it freed an entry there |
| `CheckDisk.Checker.FitMeansNoCrossing` | filesystem/chkdsk/src/chkdsk.c:346-360 | exactly if the group of the last swept cluster lies in the first FAT, as with a FAT of a multiple of three sectors, no sweep makes the run fail |
| `CheckDisk.Checker.CopyPrimaryFatToSecondary` | filesystem/chkdsk/src/chkdsk.c:391-457 | all sectors after a deletion, else those that held bits |
| `CheckDisk.Checker.Run` | filesystem/chkdsk/src/chkdsk.c:169-379 | the whole run, for every root cluster: records as seen and as stored on the device, FAT as specified, first FAT on the device up to date, exact condition for the error result, and equal FATs stay equal |
| `FatBytes.EntryWrote` | filesystem/fat/fatapi/writefatentry.c:153-191 | writing a 16-bit or 32-bit entry changes that entry only |
| `FatBytes.Entry12Wrote` | filesystem/fat/fatapi/writefatentry.c:59-151 | writing a 12-bit entry together with its neighbour's half byte changes that entry only |
| `FatBytes.EntriesPacked` | filesystem/fat/fatapi/readfat12entry.c:45-71 | two 12-bit entries are three bytes, a 16-bit entry two and a 32-bit entry four, lowest byte first |
| `FatMedia.Media.WriteFatEntry` | filesystem/fat/fatapi/writefatentry.c:38-195 | for all three types, the logical FAT changes at one entry, which holds the value modulo its width; sectors outside the FAT do not change |
| `FatMedia.Media.ReadFat12Entry` | filesystem/fat/fatapi/readfat12entry.c:38-89 | the 12-bit entry also when it is split between two sectors; the sector left behind is that of the next cluster |
| `FatMedia.Media.FindNextCluster` | filesystem/fat/fatapi/findnextcluster.c:34-49 | the logical entry of the cluster, with the exact end mark translated |
| `FatMedia.Media.ClustersApart` | filesystem/fat/fatapi/firstsectorofcluster.c:32-46 | cluster 2 begins at the first data sector, clusters follow one another, and no sector belongs to two of them |
| `FatMedia.Media.NextEntry` | filesystem/fat/fatapi/fatsector.c:44-64 | the place of the next entry is one entry further, or the beginning of the next sector |
| `FatMedia.Media.Next12` | filesystem/fat/fatapi/readfat12entry.c:45-87 | the sector of the next 12-bit entry |
| `FatScan.TotalFreeCluster` | filesystem/fat/fatapi/totalfreecluster.c:42-120 | the number of free clusters; NextFreeCluster becomes the least of them |
| `FreeClusters.FreeCounted` | filesystem/fat/fatapi/totalfreecluster.c:42-120 | the count is the number of free clusters as a set |
| `FatScan.Count12` | filesystem/fat/fatapi/totalfreecluster.c:158-178 | the scan over packed entries agrees with looking up each cluster |
| `FatScan.CountWide` | filesystem/fat/fatapi/totalfreecluster.c:77-109 | the scans over 16-bit and 32-bit entries agree with looking up each cluster |
| `FatAllocate.Search` | filesystem/fat/fatapi/firstfreeandallocate.c:114-156 | ends, and finds the free cluster that comes first after NextFreeCluster in cyclic order together with the place of its entry |
| `FatAllocate.Advance` | filesystem/fat/fatapi/firstfreeandallocate.c:117-154 | sector and offset, moved step by step across sectors and around the end, are always those of the cluster under test |
| `FatAllocate.NoneFreeNext` | filesystem/fat/fatapi/firstfreeandallocate.c:198-232 | a step past a cluster in use leaves none out |
| `FatAllocate.FirstFreeAndAllocate` | filesystem/fat/fatapi/firstfreeandallocate.c:35-175 | that cluster becomes the end of a chain, no other entry changes, the counter falls by one; a full volume changes nothing |
| `FatAllocate.GetNewCluster` | filesystem/fat/fatapi/getnewcluster.c:35-76 | the next free cluster is linked behind the handle's current one; handle fields and error case |
| `ChainDeletion.SizeInClusters` | filesystem/fat/base/deletecontent.c:61-85 | the size divided by the cluster size, rounded up, in both branches |
| `ChainDeletion.ChainFreed` | filesystem/fat/base/deletecontent.c:204-329 | of a chain exactly the first clusters are freed, up to the bound, and all of them exactly if the bound suffices and no link looks like an end mark |
| `FatDelete.FreeChain` | filesystem/fat/base/deletecontent.c:186-343 | working on one pinned sector at a time has the effect of zeroing the entries one by one, and counts them |
| `FatDelete.DeleteContent` | filesystem/fat/base/deletecontent.c:39-347 | of a chain that ends the first clusters are freed and counted, all of them exactly if the size in bytes needs the last one and no 16-bit cluster is above 0xfff0, and no other entry changes; in the mode that keeps the first cluster the same for the rest, and that cluster gets the end mark |
| `ChainDeletion.FreesAll` | filesystem/fat/base/deletecontent.c:55-79 | the first clusters that are freed are the whole chain exactly under these two conditions |
| `FatRuns.AllocateSound` | filesystem/fat/fatapi/firstfreeandallocate.c:168-173 | after allocating, the counter is exact and all chains are disjoint; the new chain is one cluster long |
| `FatRuns.AppendSound` | filesystem/fat/fatapi/getnewcluster.c:35-76 | after appending, one chain is one cluster longer and no other has changed |
| `FatRuns.DeleteSound` | filesystem/fat/base/deletecontent.c:39-347 | after deleting, the other chains are as before; clusters stay in use without a file exactly if not all of the chain was freed |
| `FatRuns.DeletedChain` | filesystem/fat/base/deletecontent.c:129-140 | how much of a chain is freed, and exactly when that is all of it |
| `FatRuns.DeletionTight` | filesystem/fat/base/deletecontent.c:55-79 | with the bound computed from the size, clusters stay in use without a file exactly if the size does not need the whole chain or a 16-bit cluster is above 0xfff0 |
| `FatRuns.TruncateSound` | filesystem/fat/base/deletecontent.c:91-107 | after deleting all but the first cluster the chain is that cluster, the other chains are as before, the counter is exact, and clusters are lost exactly if not all of the rest was freed |
| `FatRuns.TruncationTight` | filesystem/fat/base/deletecontent.c:91-107 | with the bound computed from the size, that is so exactly if the size does not need the whole chain or a 16-bit cluster behind the first one is above 0xfff0 |
| `FatRuns.SoundReady` | filesystem/fat/base/deletecontent.c:129-140 | on a sound volume the preconditions of allocating, appending and deleting hold, in both modes of deleting |
| `FatRuns.RunSound` | filesystem/fat/fatapi/firstfreeandallocate.c:61-65 | over every run of allocating, appending, deleting and deleting all but the first cluster the counter is the number of free clusters, and all chains end and are disjoint |
| `FatSeek.MovedNext` | filesystem/fat/base/fseek.c:95-113 | one step of the in-place rescaling writes in range and erases no point that has been moved |
| `FatSeek.MovedPoints` | filesystem/fat/base/fseek.c:95-113 | after rescaling every slot holds a point of the new step |
| `FatSeek.Handle.MovePoints` | filesystem/fat/base/fseek.c:87-113 | exactly the points that fit the larger step are kept, each in its new slot |
| `FatSeek.Handle.CalculateSeekPointStep` | filesystem/fat/base/fseek.c:63-117 | the step is that of the new size; every old point whose position is a multiple of the new step is in its new slot, the other slots are empty |
| `FatSeek.StepTenth` | filesystem/fat/base/fseek.c:70-78 | ten steps are inside the file and leave less than ten clusters, unless the file is shorter than ten clusters |
| `FatSeek.Handle.FillSeekPoint` | filesystem/fat/base/fseek.c:134-148 | the cluster goes into its slot only if that is empty and the position is a multiple of the step; the seek-point invariant is kept; the result says whether the slot exists |
| `FatSeek.SlotRange` | filesystem/fat/base/fseek.c:137-145 | exactly for which file sizes and chain lengths the slots that the source fills without a test are in range on all walks in the file |
| `FatSeek.SlotsInBytes` | filesystem/fat/base/fseek.c:137-145 | that condition is that the file is shorter than eleven steps or its chain has no more clusters than that |
| `FatSeek.SlotsExceeded` | filesystem/fat/base/fseek.c:137-145 | for eleven whole clusters the slots suffice with eleven clusters in the chain but not with twelve; for 19 and a part they never do |
| `FatSeek.Handle.CurrentClusterStart` | filesystem/fat/base/fseek.c:220-232 | where the current cluster begins, also for a handle parked at the end of a cluster |
| `FatSeek.Handle.FindSeekPoint` | filesystem/fat/base/fseek.c:269-303 | a point that is closer than the place found so far and not beyond the target |
| `FatSeek.Handle.ChooseStart` | filesystem/fat/base/fseek.c:234-303 | whichever start is chosen, start and number of steps add up to the target's cluster |
| `FatSeek.Handle.Walk` | filesystem/fat/base/fseek.c:308-332 | follows the chain, parks at the end of its last cluster, or reports the end of the chain; no filled seek point changes, every slot for a position passed on the way is filled afterwards, and the result says whether all of them exist |
| `FatSeek.Handle.Fseek` | filesystem/fat/base/fseek.c:166-343 | the handle comes to n from the start, to the old offset plus n, or to the size plus n, limited to 0 and the size; the current cluster, sector and byte add up to that offset along the chain whatever the seek points hold; it fails exactly for an unknown origin or more than a cluster behind the chain, with the position unchanged; the source keeps to its slots if they suffice, and on a first seek to the end exactly then |
| `FatSeek.Handle.SoughtInChain` | filesystem/fat/base/fseek.c:308-341 | with a cluster for every byte up to the target, seeking succeeds |
| `FileRuns.ChainIsFile` | filesystem/fat/fatapi/findnextcluster.c:34-49 | a chain of the FAT is what seeking follows |
| `FileRuns.Seek` | filesystem/fat/base/fseek.c:166-343 | seeking never fails but for an unknown origin, and comes to n, to the old offset plus n or to the size plus n, limited to 0 and the size |
| `FileRuns.SeekTwice` | filesystem/fat/base/fseek.c:198-214 | seeking to an offset of the file and then by a distance ends where seeking to the sum does |
| `FileRuns.Opened` | filesystem/fat/base/fseek.c:38-46 | a handle that has just been opened satisfies what runs keep |
| `FileRuns.Extend` | filesystem/fat/fatapi/getnewcluster.c:35-76 | at the end of the last cluster, or for an empty file, the chain grows by one cluster; seek points and position stay right, other chains as they are |
| `FileRuns.DeleteOther` | filesystem/fat/base/deletecontent.c:39-347 | deleting another file changes nothing for this one, and all its clusters become free exactly if its size needs its whole chain and no 16-bit cluster is above 0xfff0 |
| `FileRuns.PerformAll` | filesystem/fat/base/fseek.c:38-343 | over every run of seeking, extending, growing and deleting other files the seek points are on the chain, the handle denotes an offset in the file, and the volume is sound |
| `DoubleLists.DoubleList.InsertAfter` | media/common/DoubleList.cpp:39-81 | the node follows the given one, or comes first; links, head, tail and size describe the new sequence |
| `DoubleLists.DoubleList.InsertBefore` | media/common/DoubleList.cpp:83-95 | the node precedes the given one, or comes last |
| `DoubleLists.DoubleList.Remove` | media/common/DoubleList.cpp:97-124 | exactly this node leaves the sequence and loses its links |
| `DoubleLists.DoubleList.Clear` | media/common/DoubleList.cpp:126-131 | an empty list |
| `DoubleLists.DoubleList.ContainsNode` | media/common/DoubleList.cpp:133-147 | whether the node is in the sequence |
| `WeightedLru.PlacesInWindow` | media/common/wlru.cpp:25-47 | every weight in range moves an entry by at most the window size |
| `WeightedLru.HeavierNotFurther` | media/common/wlru.cpp:71-75 | a larger weight never brings an entry closer to the head |
| `WeightedLru.DivisorLeast` | media/common/wlru.cpp:35-45 | no smaller divisor fits the range of weights to the window |
| `WeightedLru.PlacesExact` | media/common/wlru.cpp:75 | the places times the divisor are at most the distance from the largest weight, and one place more is beyond it |
| `WeightedLru.WeightedLruList.constructor` | media/common/wlru.cpp:25-47 | the divisor is the least that fits the range of weights to the window |
| `WeightedLru.WeightedLruList.Insert` | media/common/wlru.cpp:55-91 | an invalid entry comes first, one with the largest weight or without a window last; any other lands as many places before the tail as its distance from the largest weight divided by the least fitting divisor and rounded down, or first if the list is shorter |
| `WeightedLru.WeightedLruList.Select` | media/common/wlru.cpp:93-101 | the oldest entry |
| `WeightedLru.WeightedLruList.SelectMatch` | media/common/wlru.cpp:103-117 | the oldest entry that matches |
| `WeightedLru.WeightedLruList.Deselect` | media/common/wlru.cpp:119-122 | puts an entry back as the oldest |
| `WeightedLru.NodesInWindow` | media/common/wlru.cpp:55-91 | insertions of nodes with weights in range stay in the window, so that the runs below are runs of the methods |
| `WeightedLru.NotOvertaken` | media/common/wlru.cpp:55-122 | one insertion, selection or deselection takes an entry with a full window behind it out of order only by removing it |
| `WeightedLru.NeverOvertaken` | media/common/wlru.cpp:55-122 | over every run of insertions, selections, selections by match and deselections such an entry is exactly where the removals before it and the entries put in at the head have moved it |
| `WeightedLru.SelectedInTurn` | media/common/wlru.cpp:93-101 | such an entry is selected in its turn; with window 0 the list is a queue |
| `WeightedLru.OvertakenForEver` | media/common/wlru.cpp:71-85 | with one entry fewer behind it, an entry can be overtaken without end |

## Left out

- FillSeekPoint: compares the slot with the number of slots, which the source does not do; its last result, and that of `Walk` and `Fseek`, says whether the source would have kept to the array too, and `SlotRange` says for which files it always does.
- CalculateSeekPointStep: file sizes below the size of the last call are not modelled, because files only grow.
- CheckCrossLinkFile: assumes entries that are clusters or the exact end mark, as `Checkable` demands.
- ScanDirectory: the test of a directory's first two records is a given set of clusters that pass it; cluster 0, the place in front of the data area, does not pass.
- ScanFile: sizes and cluster counts are numbers below 2^31, so that the comparison of signed and unsigned numbers plays no part.
- GetNewCluster: FAT12 is not modelled, as for `FirstFreeAndAllocate`; `FileRuns` calls it at the end of a file's last cluster, as writing does.
- Extend: `UpdateHandleOffsets`, which decides in the source when writing needs another cluster, is not part of this model; the demand comes at the end of the last cluster.
- Grow: `UpdateFileSize` is not part of this model beyond its effect on the size.
- Countable: entry 1 is not zero and the counter of free clusters is accurate; `FatRuns` shows that every run keeps this.
- DeleteContent: a file size of 2^31 bytes or more, negative in the source's 32-bit number, makes its subtraction overflow and is not modelled; FAT12 is not modelled, because the source ignores odd packed entries.
- FirstFreeAndAllocate: FAT12 is not modelled; the source takes back only one of the two sector advances of `ReadFAT12Entry`.
- Fseek: files only grow between seeks, as the source's comment says; sums of offsets do not exceed 32 bits; the code of an error differs from every entry of a FAT.
- GetSuccessorOf: the argument NULL, for which the result depends on what nil's parent link happens to hold, is not modelled; nor is it for GetPredecessorOf.
- SelectMatch: the test for a match is a function of the node alone.
- NeverOvertaken: the number of entries behind the one in question is bounded in advance by the removals that may take entries from there.
- WeightedLruList: the list that the class extends is a part of it here, and the answers of isNodeValid and getWeight do not change while a node is in use.
- DeleteFileRecord: looks for the parts of a long name but does not mark them deleted. `Run` assumes at most 20 such parts in front of any record: with 21 the source gives up, and check-disk ends with an error and without a sweep.
- LookBack: in front of the fixed root directory, or of cluster 2 on FAT32, there is a FAT. Its last sector, read as records, is a given sequence; nothing in it counts as a part of a long name, and changes to it are not followed, since all of the second FAT is copied after a deletion.
- Bytes inside directory sectors: a directory is a sequence of records, each with its kind, start cluster and size.
- The word order of the FAT16 and FAT32 entries in check-disk's buffers is little-endian, as in platform.c.
- The scratch memory that the bit array of FAT16 and the five cached sectors of FAT32 share: they are never in use at the same time, and are two arrays here.
- Failures of reading and writing sectors, cache tokens, mutexes, media tasks, memory allocation: plumbing around the logic. Branches that only such failures reach are omitted.
- FAT type determination and boot sector: given as constants.
- Mirroring to the second FAT in the file system (`ENABLE_WRITE_FAT2`): compiled out in the source.
- The media cache, the buffer manager and the translation layer for flash: only headers exist.
- Reading and writing files, creating and listing directories, opening, renaming and path parsing.
- Saving and restoring the context of a handle.
- Agreement of the FAT type between check-disk and mounting: the two count clusters differently.
