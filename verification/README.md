# FatFs volume engine and stream helpers: a verified model

This project models the file system engine of an STM32F407 motion controller firmware, and three small
state machines beside it, and proves what they guarantee.

The file system is a stack, and so is the model. Each layer is a class with the fields of the original and methods
that change them in place; ghost fields say what the layer means to the one above.

| layer | files | meaning |
|---|---|---|
| medium and one-sector write-back window | `Volume.dfy`, `Window.dfy` | logical disk = medium overlaid by the dirty window |
| FAT12/16/32 entries | `FatAccess.dfy` | sequence of entry values; `log` lists every value the FAT has had, half-stored entries included, and `medium` says which of them the medium shows |
| chains | `Forest.dfy`, `Chains.dfy` | forest of disjoint acyclic chains, free cluster count |
| exFAT bitmap and lazy chains | `Bitmap.dfy`, `ExFatChain.dfy`, `ExFat.dfy`, `ExFatRun.dfy` | list of clusters of an object, partly implied by its status fields |
| open files | `FileBytes.dfy`, `FileSteps.dfy`, `FatFile.dfy`, `FileRead.dfy`, `FileSeek.dfy`, `FileTruncate.dfy`, `FileSync.dfy`, `FileRun.dfy` | byte sequence with a position |
| files beside files | `FileKeep.dfy` | footprint of an operation; what the medium stores of other files |
| power cycle | `Remount.dfy` | run, sync, mount, open as one theorem |
| bits and bytes | `Arith.dfy`, `Bytes.dfy`, `ByteBits.dfy` | little-endian fields; bytes as numbers and as bits |
| free space and mounting | `FreeSpace.dfy`, `Mount.dfy` | number of free clusters; geometry of the volume |
| names | `Names.dfy`, `NameEntries.dfy` | 8.3 form, case flags, long-name entries |
| directories | `DirTable.dfy`, `DirStep.dfy`, `DirSlots.dfy`, `DirWrite.dfy`, `DirCreate.dfy`, `DirRead.dfy`, `DirList.dfy` | sequence of 32-byte slots; objects with names |
| files in directories | `DirFile.dfy` | creating a file; its directory while it is worked on |
| USB output, pin claiming, quadrature decoder | `UsbSerial.dfy`, `IoPorts.dfy`, `Quadrature.dfy` | byte stream; permutation; net number of steps |

The configuration is the one in `Software_STM32F407/FatFs/ffconf.h`: 512-byte sectors, a sector buffer per file, long names
up to 255 characters, a single-byte code page, exFAT on. `FatFs` is modelled as `Fatfs`, `FIL` as `Fil`, `DIR` as `Dir`,
`FFOBJID` on exFAT as `ExObj`.

Conventions:

- Every sector transfer may fail at any time; a failed write leaves the sector unspecified. `medium.faults` counts the
  failures of the device: transfers, the confirmation of CTRL_SYNC, and the FSInfo write, whose result the code ignores.
  FR_DISK_ERR is answered only if it grew during the call (`Faulted`), so what is stated for FR_OK holds for every call
  during which the device did not fail. For failures it is stated what the code keeps.
- `medium.counts` and `medium.sent` are what FSInfo was last told or read and whether that is on the medium: at any time the
  counts of the volume object are marked as changed or equal to it.
- DWORD subtraction and the sums of `mount_volume` wrap explicitly. Bit operations on bytes and words are spelled as
  arithmetic, flag bytes as records of booleans; the mask `& (csize - 1)` is the remainder, see `Mount.MaskIsRemainder`.
- `Fatfs.Valid()` is the invariant of the volume object between any two steps: window coherent, FAT as recorded, medium at one
  recorded state unless the last write of a first-FAT sector failed, copies equal if they were at mount time and no mirror write
  has failed. `Core`/`AtRest` are the invariant of an open file; `Storable` is what is left of it after a failed call.
- The code page is a parameter with the assumption that its two tables are inverse to each other (`Names.Faithful`).
- Standards: Microsoft FAT Specification sections 3.5, 4 and 7; Microsoft exFAT specification sections 7.1 and 7.6.

What the code does differently from what one might expect is stated as such:

- A scan of FAT16/32 by `f_getfree` counts entries 0 and 1 (`FreeSpace.FGetFree` gives the exact surplus, `FreeSpace.ZeroHead`
  the example).
- `remove_chain` given a free cluster as predecessor takes it from the free ones without counting (`Chains.CutBehind`).
  Its only caller that names one, `f_truncate`, passes a cluster of the chain; this is about the function, not about an input
  it receives.
- `mount_volume` accepts volumes whose sector sums wrap, and volumes whose FSInfo sector is the first FAT sector
  (`Mount.MountFat` gives the exact condition, `Mount.WrappedFat` and `Mount.InfoInFat` the examples).
- A FAT12 entry whose two bytes lie in different sectors is on the medium half-stored between the two writes
  (`Chains.MediumExact` and `Chains.PutAcross` give the exact condition, `Chains.TornMedium` the example).
- `find_bitmap` may answer with a run that reaches over the last cluster and goes on at the first (`Bitmap.BlockExact`,
  `Bitmap.BlockOverEnd`). In this configuration (`FF_USE_EXPAND` is 0) its only caller is `create_chain`, which asks for one
  cluster, where that cannot happen; the result for longer runs is about the function, not about an input it receives.
- exFAT `get_fat` answers end-of-chain inside an object with a pending fragment (`ExFatChain.AnswerExact`).
- On exFAT a `create_chain` that fails while linking leaves its cluster marked, and no other (`ExFat.CreateChainX`).
- After `f_truncate` a clean sector buffer may still show a sector the file gave up, which another file may then overwrite
  (`FileRun.OtherFileKept` gives the exact condition, `FileRun.StaleBuffer` the example).
- `f_write` marks the file as changed at its successful end only, and `f_sync` takes the mark away even if `sync_fs` fails.
  After either failure the next `f_sync` may answer FR_OK without writing anything (`FileRun.FailedWriteLost`,
  `FileRun.RetriedSyncLost`). FR_OK means that the medium stores the file if and only if the mark was set or the medium
  stored it before (`FileSync.FSync`); as long as no call has failed one of the two is the case (`FileRun.RunOps`).

## Model

| member | source | states |
|---|---|---|
| `Window.SyncWindow` | Software_STM32F407/FatFs/ff.c:1025-1043 | flushing the window never changes the logical disk; it fails only if the device does; afterwards the medium shows the current FAT and never an older one; only a failed write of a first-FAT sector damages the FAT on the medium, and without a failure the second FAT equals the first as before |
| `Window.MirrorStep` | Software_STM32F407/FatFs/ff.c:1035-1037 | writing the reflected sector keeps the second FAT equal to the first |
| `Window.MirrorKept` | Software_STM32F407/FatFs/ff.c:1025-1043 | copies of the FAT that were equal at mount time are equal on the medium after any run without a failure of the device |
| `Window.InFirstFat` | Software_STM32F407/FatFs/ff.c:1035-1035 | the wrapping DWORD test in the code means exactly: the window shows a sector of the first FAT |
| `Window.FailedFlush` | Software_STM32F407/FatFs/ff.c:1033-1040 | a failed flush loses nothing logically: the window stays dirty and hides the damaged sector |
| `Window.MoveWindow` | Software_STM32F407/FatFs/ff.c:1047-1068 | the logical disk is unchanged; on FR_OK, which is the answer unless the device fails, the window shows the logical content of the requested sector; a dirty window that moves brings the medium up to date, any other leaves it alone |
| `Window.EditStep` | Software_STM32F407/FatFs/ff.c:1047-1068 | changing the window over a sector outside the FATs keeps window coherence and the FAT |
| `Volume.EntryFrame` | Software_STM32F407/FatFs/ff.c:1131-1165 | a FAT entry depends on the sectors of the first FAT only |
| `Volume.Fatfs.constructor` | Software_STM32F407/FatFs/ff.c:3493-3538 | a freshly mounted object is in a valid state: the FAT is the one on the medium, nothing is pending, the counts are those of FSInfo |
| `FatAccess.GetFat` | Software_STM32F407/FatFs/ff.c:1131-1199 | for FAT12/16/32 the value of the entry masked to its width, entries that straddle two sectors included; 1 outside the valid range |
| `FatAccess.PutFat` | Software_STM32F407/FatFs/ff.c:1209-1258 | exactly the one entry takes the value, truncated to the entry width, for all three FAT types; every other cluster keeps its value; the reserved top four bits of every FAT32 entry stay; nothing outside the FAT changes; the history of the FAT grows by one state, and by a torn one only for a FAT12 entry in two sectors |
| `FatAccess.Put12FirstFat` | Software_STM32F407/FatFs/ff.c:1223-1228 | FAT12: storing the first byte of an entry changes only that entry, not the neighbour sharing the byte |
| `FatAccess.Put12SecondFat` | Software_STM32F407/FatFs/ff.c:1229-1234 | FAT12: storing the second byte completes the entry and again spares the neighbour |
| `FatAccess.Put12Both` | Software_STM32F407/FatFs/ff.c:1222-1234 | FAT12: after both bytes the entry reads back as the value modulo 0x1000, whatever shared nibbles and sectors are involved |
| `FatAccess.Put12Half` | Software_STM32F407/FatFs/ff.c:1222-1228 | FAT12: what an entry reads as while only its first byte is stored |
| `FatAccess.Put16Fat` | Software_STM32F407/FatFs/ff.c:1236-1241 | FAT16: the entry reads back, all others are unchanged |
| `FatAccess.Put32Fat` | Software_STM32F407/FatFs/ff.c:1243-1254 | FAT32: the entry reads back modulo 2^28, all others are unchanged |
| `Chains.EndMark` | Software_STM32F407/FatFs/ff.c:38-44 | the stored end-of-chain mark reads back as a value no cluster number reaches, and cluster numbers fit the entries |
| `Forest.ChainDistinct` | Software_STM32F407/FatFs/ff.c:1131-1165 | a chain never revisits a cluster |
| `Forest.ChainUnique` | Software_STM32F407/FatFs/ff.c:1131-1165 | a chain is determined by its first cluster |
| `Forest.AllocStep` | Software_STM32F407/FatFs/ff.c:1570-1570 | marking a free cluster as end of chain keeps the FAT a forest of disjoint acyclic chains |
| `Forest.LinkStep` | Software_STM32F407/FatFs/ff.c:1571-1573 | linking the last cluster of a chain to the fresh end cluster keeps the forest: no sharing, no cycle, no dangling link |
| `Forest.CutStep` | Software_STM32F407/FatFs/ff.c:1417-1421 | the end mark on the predecessor keeps the forest and leaves what follows without predecessor |
| `Forest.FreeStep` | Software_STM32F407/FatFs/ff.c:1423-1432 | freeing a cluster nothing links to keeps the forest, and frees its successor of predecessors |
| `Forest.UpdateExact` | Software_STM32F407/FatFs/ff.c:1209-1258 | one entry of a forest changed to any value leaves a forest if and only if it is the old value, or 0 with nothing linking to the entry, or an end mark, or the start of another chain |
| `Forest.FreeFromUpdate` | Software_STM32F407/FatFs/ff.c:1433-1436 | how one entry update changes the number of free clusters |
| `Chains.FindFree` | Software_STM32F407/FatFs/ff.c:1543-1569 | the neighbour test and the cyclic scan terminate and find a free cluster: the neighbour of the one being stretched if it is free, else the first free one behind the cluster taken last, else, at the start of a chain, behind that one; 0 only when there is none |
| `Chains.ScanFree` | Software_STM32F407/FatFs/ff.c:1555-1569 | the cyclic scan alone: the first free cluster behind the given one, going round the volume once |
| `Chains.Append` | Software_STM32F407/FatFs/ff.c:1570-1573 | end mark first, then the link: at every put_fat, on all FAT types, the FAT is a forest; a failure leaves the link of the last cluster as it was, unless its entry lies in two sectors |
| `Chains.CreateChain` | Software_STM32F407/FatFs/ff.c:1494-1585 | follows the chain without any change, or takes a cluster that was free and appends it; 0 only when no cluster is free, 1 never on a forest, 0xFFFFFFFF only if the device failed; the cached count stays right, and changed counts are marked for FSInfo; at every put_fat, on all FAT types, the FAT is a forest, also when the call fails half-way |
| `Chains.AppendCount` | Software_STM32F407/FatFs/ff.c:1576-1579 | one cluster fewer is free after an append |
| `Chains.FreeLoop` | Software_STM32F407/FatFs/ff.c:1423-1456 | terminates on every FAT content, even cyclic: each round turns one used entry into a free one, the first one always; on a chain exactly its clusters are freed |
| `Chains.RemoveChain` | Software_STM32F407/FatFs/ff.c:1399-1485 | on a chain exactly its clusters are freed and the predecessor becomes the end; other chains are untouched; changed counts are marked for FSInfo; FR_DISK_ERR only if the device failed; a forest at every single put_fat, on all FAT types and also when the call fails half-way |
| `Chains.MediumIsForest` | Software_STM32F407/FatFs/ff.c:1025-1043 | whenever power fails, the first FAT on the medium is one of the states between two put_fat calls, and a forest, provided the last write of a first-FAT sector did not fail: on FAT16/32 always, on FAT12 if no entry that lies in two sectors was changed |
| `Chains.MediumExact` | Software_STM32F407/FatFs/ff.c:1222-1234 | the same with such entries: the medium holds a forest if and only if the state it shows is a whole one, or the entry stored by half may take the value it reads as |
| `Chains.PutAcross` | Software_STM32F407/FatFs/ff.c:1222-1234 | what one put_fat of such an entry leaves on the medium is a forest if and only if the entry may take its half-stored value, which is known before the call |
| `Chains.TornEndMark` | Software_STM32F407/FatFs/ff.c:1570-1570 | the end mark on a free cluster reads as 15 or 255 half-way: a forest if and only if that is no cluster number or the start of a chain |
| `Chains.TornFree` | Software_STM32F407/FatFs/ff.c:1423-1432 | freeing the first cluster of a chain: a forest half-way if and only if the entry reads as free, end, unchanged, or the start of another chain |
| `Chains.WideUnsplit` | Software_STM32F407/FatFs/ff.c:1236-1254 | on FAT16/32 the history has no half-stored entries at all |
| `Chains.UnsplitWhole` | Software_STM32F407/FatFs/ff.c:1222-1234 | without changes to entries that lie in two sectors every state of the history, torn or not, is one between two put_fat calls |
| `Chains.TornMedium` | Software_STM32F407/FatFs/ff.c:1222-1234 | with such an entry it can fail: marking cluster 341 as end of chain leaves a medium on which it links to the free cluster 15 |
| `Chains.CutBehind` | Software_STM32F407/FatFs/ff.c:1417-1421 | the end mark on the predecessor; a right count stays right if and only if the predecessor was in use |
| `Chains.ZeroMeansFull` | Software_STM32F407/FatFs/ff.c:1515-1515 | with a right count, zero free clusters and a full FAT are the same |
| `FileBytes.SectorOfInjective` | Software_STM32F407/FatFs/ff.c:1114-1122 | different sectors of a file are different sectors of the medium |
| `FileBytes.SectorOfRange` | Software_STM32F407/FatFs/ff.c:1114-1122 | the sectors of a chain lie in the data area, away from the FATs |
| `FileSteps.GrowStep` | Software_STM32F407/FatFs/ff.c:3977-3999 | a cluster appended to the chain changes no byte of the file |
| `FileSteps.DirectBytes` | Software_STM32F407/FatFs/ff.c:4012-4031 | a direct transfer of whole sectors replaces exactly those bytes of the file |
| `FileSteps.PatchBytes` | Software_STM32F407/FatFs/ff.c:4039-4056 | a partial write into the sector buffer replaces exactly those bytes of the file |
| `FatFile.FWrite` | Software_STM32F407/FatFs/ff.c:3950-4062 | on FR_OK the first bw bytes are put at fptr, replacing or appending, and no other byte changes; bw falls short only at 4 GiB - 1, or behind the last cluster of the file when no other cluster is free; only clusters that were free joined the file; the file is marked as changed. It fails only if the device failed during the call, or with FR_INT_ERR if the FAT holds the reserved value 1; the first bw bytes are in all the same, no byte outside the requested range is lost unless the link behind the last cluster may be torn, and the mark is what it was |
| `FatFile.WriteRound` | Software_STM32F407/FatFs/ff.c:3975-4057 | one round - cluster choice, write-back, direct transfer or partial sector - writes some bytes and keeps the invariant of the open file, or stops behind the last cluster with no other one free; a failed one spares all bytes outside the request |
| `FatFile.OwnOnlyTrans` | Software_STM32F407/FatFs/ff.c:3950-4062 | the frame of the file functions composes: only the FATs, the sectors of the file and the dirty window are written |
| `FatFile.WriteLoop` | Software_STM32F407/FatFs/ff.c:3975-4057 | the loop of f_write, successful, stopped behind the last cluster, or failing in any round |
| `FatFile.RootedGrown` | Software_STM32F407/FatFs/ff.c:3977-3999 | a cluster appended to a chain leaves nothing linking to its first cluster, if nothing did |
| `FileSteps.FailedDirectStep` | Software_STM32F407/FatFs/ff.c:4012-4024 | a direct transfer that fails half-way damages the sectors it was to write and no others |
| `FileRead.FRead` | Software_STM32F407/FatFs/ff.c:3850-3940 | on FR_OK the buffer holds exactly the bytes at fptr, as many as asked for and left; it fails only if the device failed during the call, and then the first br bytes are delivered all the same; the file is unchanged in any case, a dirty buffer included |
| `FileRead.ReadDirectBytes` | Software_STM32F407/FatFs/ff.c:3897-3914 | a direct read patched with the dirty sector buffer gives the bytes of the file |
| `FileSeek.FSeek` | Software_STM32F407/FatFs/ff.c:4444-4522 | fptr is the requested or clipped offset, or, if no cluster is free, the end of the chain, which then is the end of the file; the file is extended exactly that far and no old byte changes, also when it fails - only if the device failed, or the FAT holds the reserved value 1 -, unless the link behind the last cluster may be torn; the position invariant of f_read and f_write holds |
| `FileSeek.SeekPlace` | Software_STM32F407/FatFs/ff.c:4446-4453 | where that is, in numbers: the offset, clipped to 4 GiB - 1, without write access to the size, or the end of the file if it ends earlier |
| `FileSeek.Landing` | Software_STM32F407/FatFs/ff.c:4495-4518 | following the chain from the current cluster ends at chain element (fptr - 1) / cluster size |
| `FileSeek.SeekLoop` | Software_STM32F407/FatFs/ff.c:4473-4494 | the cluster-following loop: offset, cluster and size advance together, growing the chain at its end |
| `FileTruncate.FTruncate` | Software_STM32F407/FatFs/ff.c:4842-4883 | the file ends at fptr, the bytes before it stay, exactly the clusters they need are kept and the others are free; it fails only if the device failed during the call |
| `FileTruncate.CutAndFree` | Software_STM32F407/FatFs/ff.c:4860-4867 | end mark at the last kept cluster plus freeing the rest leaves exactly the prefix of the chain |
| `FileTruncate.TruncateContent` | Software_STM32F407/FatFs/ff.c:4855-4868 | the truncated file has the first fptr bytes |
| `FileTruncate.RootedCut` | Software_STM32F407/FatFs/ff.c:4855-4868 | nothing comes to link to the first cluster of a truncated file |
| `FileSync.EntryReadsBack` | Software_STM32F407/FatFs/ff.c:4124-4132 | start cluster, size, time and access date stored in the directory entry read back; no other entry of the sector changes |
| `FileSync.UpdatedBytes` | Software_STM32F407/FatFs/ff.c:4124-4132 | name, case flags and all attribute bits but the archive bit stay |
| `FileSync.SyncFs` | Software_STM32F407/FatFs/ff.c:1078-1104 | flushes the window and sends FSInfo with the current counts; FR_OK, which is the answer unless the device fails, means that the device has confirmed to have stored everything and no count is pending; everything but FAT copies and FSInfo is then on the medium as it was logically |
| `FileSync.FsInfoReadsBack` | Software_STM32F407/FatFs/ff.c:1085-1098 | signatures and counts in the FSInfo sector read back, and what mount_volume takes from it are these counts |
| `FileSync.FSync` | Software_STM32F407/FatFs/ff.c:4071-4141 | whether the file is open without error or a failed call has left it: its bytes stay the same; after FR_OK nothing of it is pending, the device has confirmed, and the medium alone stores them if and only if it was marked as changed or that was so before; the sector of its entry differs in the updated entry alone. It fails only if the device failed during the call; then the mark stays, or the medium stores the bytes, or the entry is in the dirty window |
| `FileSync.StillSaved` | Software_STM32F407/FatFs/ff.c:3850-3940 | a saved file stays saved while nothing of it is changed and no write of the first FAT fails |
| `FileSync.StoredOnce` | Software_STM32F407/FatFs/ff.c:4071-4141 | the medium determines chain and bytes: two readings of a directory entry agree |
| `FileRun.RunOps` | Software_STM32F407/FatFs/ff.c:3850-4883 | any sequence of writes, reads, seeks, truncations and syncs is a run of a plain byte sequence with a position; a write or seek that falls short ends at the end of the file with no cluster free; a run of permitted operations without a failure of the device, on a FAT without the reserved value 1, is carried out to its end and answers FR_OK; all along the file is marked as changed or the medium stores it. However it ends, directories and other clusters in use are spared, stored files stay stored, and a forest with nothing linking to the start of the file is one at every put_fat |
| `FileRun.StaysStored` | Software_STM32F407/FatFs/ff.c:3850-4883 | a file that is stored is stored on the medium after any number of operations on another file, a failed last one included - but for the moment after a failed write of a first-FAT sector, and a failed f_sync of an entry in the same sector |
| `FileKeep.SecureKept` | Software_STM32F407/FatFs/ff.c:3850-4883 | the same for a single operation: entry, data and, in every state of the FAT the medium may come to show, torn ones included, the chain |
| `FileKeep.SyncedSecure` | Software_STM32F407/FatFs/ff.c:4071-4141 | a file just synced is in this position |
| `FileKeep.FootprintSpares` | Software_STM32F407/FatFs/ff.c:3850-4883 | an operation changes no sector of a directory but the one of the file's entry, and no link of another cluster in use |
| `Chains.PutApart` | Software_STM32F407/FatFs/ff.c:1209-1258 | a put_fat, failed or torn, leaves the entries of all other clusters as they are |
| `FileRun.WriteComplete` | Software_STM32F407/FatFs/ff.c:3950-4062 | in every run a write is complete if it stays inside the file, on a full volume too, or if clusters remain free |
| `FileRun.FailedWriteLost` | Software_STM32F407/FatFs/ff.c:4059-4059 | f_write sets the mark at its successful end only: after a write to a saved FAT16/32 file that fails once the file has grown, f_sync answers FR_OK and the medium does not store the file |
| `FileRun.RetriedSyncLost` | Software_STM32F407/FatFs/ff.c:4133-4134 | f_sync clears the mark even if sync_fs fails: repeated after such a failure it answers FR_OK with the disk unchanged |
| `FileRun.ReadBack` | Software_STM32F407/FatFs/ff.c:3850-4883 | in every such run, what was written is read back and bytes outside it are kept, if the position was reached and the write was complete |
| `FileRun.OtherFileKept` | Software_STM32F407/FatFs/ff.c:3950-4062 | whatever the functions of one file do, another open file keeps its chain and all its bytes; it can be gone on with if and only if its clean buffer does not show a sector the other file has overwritten |
| `FileRun.StaleBuffer` | Software_STM32F407/FatFs/ff.c:4855-4883 | an input where it cannot: a file cut to nothing shows its former sector, the new owner of the cluster writes to it |
| `FileKeep.StillDisjoint` | Software_STM32F407/FatFs/ff.c:3977-3999 | a growing file never takes a cluster of another file |
| `FileRun.WriteBeside` | Software_STM32F407/FatFs/ff.c:3950-4062 | f_write on one file beside another open one: the one is written as far as f_write says, the other keeps its bytes, their clusters stay disjoint |
| `Remount.OpenedStored` | Software_STM32F407/FatFs/ff.c:3791-3806 | a file opened through its directory entry on a freshly mounted volume has the bytes stored there |
| `Remount.PowerCycle` | Software_STM32F407/FatFs/ff.c:3459-3538 | power off at any moment, mount, open: the bytes of a file the medium stores; the FAT of that moment if the medium shows it, the counts if they are not marked as changed and the last FSInfo write arrived |
| `Remount.SyncAndMount` | Software_STM32F407/FatFs/ff.c:4071-4141 | f_sync, power off, mount_volume, open: the same bytes, those a failed call has left included, if and only if the file was marked as changed or the medium stored it; for a marked file also the same FAT and, if FSInfo carried them over, the counts of the moment of f_sync, which it does if it was in use and the device did not fail; f_sync fails only if the device failed |
| `Remount.CountAfterMount` | Software_STM32F407/FatFs/ff.c:4768-4829 | f_getfree asked right after that answers the number of free clusters, if the count was right before and FSInfo carried it over |
| `Remount.RunAndMount` | Software_STM32F407/FatFs/ff.c:3459-4883 | any sequence of operations, then f_sync, power off, mount_volume and open: the bytes are those at the end of the run of the plain byte sequence; without a failure of the device all of it is answered with FR_OK, and two copies of the FAT that were equal before are equal on the medium |
| `Bitmap.FlipBit` | Software_STM32F407/FatFs/ff.c:1335-1335 | flipping one bit of a byte changes no other bit |
| `Bitmap.BitSetBits` | Software_STM32F407/FatFs/ff.c:1329-1337 | the bit that bitmap code tests and flips, on bytes as bits: shift and mask |
| `Bitmap.FindBitmap` | Software_STM32F407/FatFs/ff.c:1274-1307 | for any run length: the first run of free clusters that the cyclic scan meets, or 0 only if it meets none, from any hint, by a scan that terminates |
| `Bitmap.BlockExact` | Software_STM32F407/FatFs/ff.c:1291-1305 | the run is a block of consecutive clusters if and only if it does not reach over the last cluster |
| `Bitmap.BlockOverEnd` | Software_STM32F407/FatFs/ff.c:1291-1305 | a bitmap on which it does, for a run of two clusters |
| `Bitmap.ScanStep` | Software_STM32F407/FatFs/ff.c:1291-1305 | one step of the cyclic scan keeps what is known of the scanned bits |
| `Bitmap.ChangeBitmap` | Software_STM32F407/FatFs/ff.c:1314-1343 | on FR_OK exactly the requested bits changed to the new value; FR_INT_ERR only if one of them had it already; bits outside are kept |
| `ExFatChain.FlushedIsChain` | Software_STM32F407/FatFs/ff.c:1350-1388 | with both fragments written, the FAT alone holds the chain |
| `ExFatChain.LazyUnique` | Software_STM32F407/FatFs/ff.c:1168-1191 | status fields and FAT determine the clusters of an object with a given number of clusters |
| `ExFatChain.AnswerFollows` | Software_STM32F407/FatFs/ff.c:1168-1191 | get_fat walks the clusters of an object with nothing pending, and reports the end at the last one always |
| `ExFatChain.AnswerExact` | Software_STM32F407/FatFs/ff.c:1180-1183 | inside an object get_fat answers the next cluster if and only if nothing is pending or the link belongs to the first fragment |
| `ExFatChain.StretchFragment` | Software_STM32F407/FatFs/ff.c:1533-1534 | n_frag counts the growing last fragment without touching the FAT |
| `ExFatChain.StretchNewFragment` | Software_STM32F407/FatFs/ff.c:1535-1538 | after the old last fragment is written and linked, a new fragment of one cluster is pending |
| `ExFatChain.LastFragStep` | Software_STM32F407/FatFs/ff.c:1382-1386 | one put_fat of fill_last_frag: the oldest pending entry gets its link |
| `ExFatChain.FreeBitsUpdate` | Software_STM32F407/FatFs/ff.c:1576-1579 | how one bit changes the number of free clusters |
| `ExFatChain.LazyFrame` | Software_STM32F407/FatFs/ff.c:1350-1388 | an object depends on the FAT entries of its own clusters only |
| `ExFat.GetFatX` | Software_STM32F407/FatFs/ff.c:1167-1191 | the answer of get_fat on exFAT, for any object: implied by the status fields where they say so, else the raw entry; the exception is a contiguous object that reaches over the end of the 32-bit range |
| `ExFat.FillFirstFrag` | Software_STM32F407/FatFs/ff.c:1350-1366 | the object stands for the same clusters at every put_fat; afterwards its first fragment is in the FAT |
| `ExFat.FillLastFrag` | Software_STM32F407/FatFs/ff.c:1373-1388 | the object stands for the same clusters at every put_fat; afterwards its last fragment is in the FAT, followed by the given value |
| `ExFat.CreateChainX` | Software_STM32F407/FatFs/ff.c:1517-1540 | the first free cluster behind the last one becomes the last one of the object whatever its fragmentation, 0 only when full, never an internal error, 0xFFFFFFFF only if the device failed; the object survives a failed flush, which leaves at most one cluster marked in vain |
| `ExFat.FlushFragments` | Software_STM32F407/FatFs/ff.c:4093-4097 | with nothing pending at any cluster, else at the last one: a fragmented object is a chain in the FAT afterwards; a contiguous one stays contiguous |
| `ExFat.FlushLast` | Software_STM32F407/FatFs/ff.c:4385-4389 | fill_last_frag on its own, as f_lseek calls it: the object stays the same and nothing of its last fragment is pending |
| `ExFat.OthersUnaffected` | Software_STM32F407/FatFs/ff.c:1517-1540 | all other objects of the volume stand for the same clusters |
| `ExFatRun.SizeIs` | Software_STM32F407/FatFs/ff.c:1171-1176 | a recorded size of n whole clusters is recognised by get_fat as n clusters |
| `ExFatRun.AppendRun` | Software_STM32F407/FatFs/ff.c:1517-1540 | any sequence of appends and of flushes of the first, the last or both fragments, on a new or an existing object: one cluster more per append, each free before, in every case; it ends early only by a failure of the device or by an append on a full volume; after a flush of both fragments contiguous, or exactly the FAT chain from the start cluster |
| `FreeSpace.ScanFat` | Software_STM32F407/FatFs/ff.c:4804-4822 | the sector-wise scan counts the zero entries, entries 0 and 1 included |
| `FreeSpace.ScanBitmap` | Software_STM32F407/FatFs/ff.c:4784-4801 | the bit-wise scan counts the clear bits of the bitmap |
| `FreeSpace.FGetFree` | Software_STM32F407/FatFs/ff.c:4768-4829 | cached or scanned, the answer is the number of free clusters; on FAT16/32 a scan adds one for each of the entries 0 and 1 that is zero, so that it is right if and only if none is; the cached count changes to the answer and is marked for FSInfo; it fails only if the device failed, or on FAT12 with FR_INT_ERR at the reserved value 1 |
| `FreeSpace.HeadCounts` | Software_STM32F407/FatFs/ff.c:4804-4822 | the scan over all entries exceeds the free count by the zero entries among the first two |
| `FreeSpace.ZeroHead` | Software_STM32F407/FatFs/ff.c:4804-4822 | a FAT16 volume of 18 free clusters and zero head entries, for which f_getfree answers 20 |
| `FreeSpace.CountRun` | Software_STM32F407/FatFs/ff.c:1399-1585 | over any run of allocating, freeing (with or without predecessor) and asking, internal errors included, every answer is the true count at that moment, if no free cluster was named as predecessor; what allocating hands out and freeing releases is exact; the run ends early only by a failure of the device, and the answers before it are right all the same |
| `Mount.MountFat` | Software_STM32F407/FatFs/ff.c:3459-3509 | a volume is accepted if and only if its BPB fields are consistent, with the FAT type by the thresholds 4085 and 65525; an accepted volume inside the medium has a sound layout - FATs, root directory and data disjoint and inside, entries inside the FAT - if and only if its sector sums do not wrap and FSInfo is not the first FAT sector |
| `Mount.LayoutExact` | Software_STM32F407/FatFs/ff.c:3479-3509 | the same on the computed numbers |
| `Mount.RootFits` | Software_STM32F407/FatFs/ff.c:3504-3505 | the static root directory lies between FATs and data |
| `Mount.WrappedFat` | Software_STM32F407/FatFs/ff.c:3462-3509 | mount_volume accepts a FAT size whose double wraps to zero |
| `Mount.InfoInFat` | Software_STM32F407/FatFs/ff.c:3479-3532 | mount_volume accepts one reserved sector with FSInfo present: the FSInfo sector is the first sector of the FAT |
| `Mount.MountVolume` | Software_STM32F407/FatFs/ff.c:3459-3538 | for every medium: FR_OK exactly for the consistent volumes, and an object all other results apply to exactly if the computed layout fits the medium - which it does for sound fields -, with the FAT of the medium and the counts of FSInfo, which is in use unless its flag or signatures say otherwise or the device failed |
| `Mount.PowerOfTwoTest` | Software_STM32F407/FatFs/ff.c:3471-3471 | csize & (csize - 1) is zero exactly for powers of two |
| `Mount.MaskIsRemainder` | Software_STM32F407/FatFs/ff.c:1736-1736 | for such cluster sizes the mask is the remainder |
| `Names.CreateName` | Software_STM32F407/FatFs/ff.c:2814-2929 | FR_INVALID_NAME exactly for segments that are none; the long name is the segment without trailing dots and spaces; the short form is that of `MakeShort`; the flags tell exactly whether the name is lossy, needs long-name entries, and its case |
| `Names.MakeShort` | Software_STM32F407/FatFs/ff.c:2854-2927 | for every name: spaces and dots are left out of body and extension, what only long names may hold becomes an underscore, eight and three characters are kept, in upper case; NS_LOSS exactly if the name does not fit 8.3, NS_LFN exactly if short form and case flags do not carry it |
| `Names.Squeezed83` | Software_STM32F407/FatFs/ff.c:2854-2917 | for a name that fits, that is its 8.3 form, character for character |
| `Names.AllowedAscii` | Software_STM32F407/FatFs/ff.c:2822-2822 | the printable ASCII characters that are not allowed in a name are exactly " * : < > ? and the vertical bar, and 0x7F |
| `Names.FittingAscii` | Software_STM32F407/FatFs/ff.c:2904-2904 | those that only long names may hold are exactly + , ; = [ ]; letters are stored in upper case |
| `Names.FillDone` | Software_STM32F407/FatFs/ff.c:2859-2916 | what the field-filling loop leaves is the 8.3 form unless something was lost, and loss means: not an 8.3 name |
| `Names.OverflowStep` | Software_STM32F407/FatFs/ff.c:2869-2878 | a full field with characters left means the name is not 8.3 |
| `Names.TrimDecoded` | Software_STM32F407/FatFs/ff.c:2846-2852 | trimming before or after the code page conversion is the same |
| `NameEntries.PutLfn` | Software_STM32F407/FatFs/ff.c:1928-1953 | the slot becomes the long-name entry with the given order: 13 characters, terminator, filler, last-part mark, checksum |
| `NameEntries.LfnPlaces` | Software_STM32F407/FatFs/ff.c:513-513 | the thirteen characters are at 1, 3, 5, 7, 9, 14, 16, 18, 20, 22, 24, 28 and 30 |
| `NameEntries.PickLfn` | Software_STM32F407/FatFs/ff.c:1890-1919 | accepts exactly the well-formed entries that fit the buffer, and stores their characters at their place |
| `NameEntries.PartPicked` | Software_STM32F407/FatFs/ff.c:1890-1953 | what put_lfn wrote, pick_lfn gives back |
| `NameEntries.SumSfn` | Software_STM32F407/FatFs/ff.c:2022-2033 | the checksum of the eleven bytes, on bytes as bits: from 0 on, rotate right by one and add the next byte, modulo 256 |
| `NameEntries.ChecksumBits` | Software_STM32F407/FatFs/ff.c:2022-2033 | the arithmetic spelling of it and the bitwise one agree on all names |
| `NameEntries.KnownSum` | Software_STM32F407/FatFs/ff.c:2022-2033 | the sum of ALONGN~1TXT is 0x42 |
| `NameEntries.ChecksumDetects` | Software_STM32F407/FatFs/ff.c:2022-2033 | short names that differ in exactly one byte have different checksums |
| `NameEntries.FileName` | Software_STM32F407/FatFs/ff.c:2636-2689 | the long name if there is one the code page can express, else the short name with its case flags |
| `NameEntries.ShortRoundTrip` | Software_STM32F407/FatFs/ff.c:2655-2689 | a name without long-name entries comes back through its 8.3 form and the case flags |
| `NameEntries.LongRoundTrip` | Software_STM32F407/FatFs/ff.c:2637-2652 | a long name comes back through the code page |
| `NameEntries.PlainReadable` | Software_STM32F407/FatFs/ff.c:2655-2674 | reading an 8.3 form gives the name in upper case |
| `DirTable.DirSdi` | Software_STM32F407/FatFs/ff.c:1666-1705 | on FR_OK the cursor is on the slot of the offset - its cluster, its sector -; FR_INT_ERR means there is no such slot |
| `DirTable.SlotEdited` | Software_STM32F407/FatFs/ff.c:1701-1702 | rewriting 32 bytes of a sector of the table changes one slot |
| `DirTable.TableSectInjective` | Software_STM32F407/FatFs/ff.c:1685-1702 | the sectors of a directory are different from each other |
| `DirStep.DirClear` | Software_STM32F407/FatFs/ff.c:1627-1656 | on FR_OK every sector of the cluster is zero and nothing else changed; a failure spoils the volume object only if the first sector on the medium differs from the zeros the window shows |
| `DirStep.DirNext` | Software_STM32F407/FatFs/ff.c:1714-1765 | on FR_OK the cursor is where dir_sdi puts it for the next offset; at the end of the table FR_NO_FILE, or a cluster of zero slots is appended; FR_DENIED only behind the last slot, and (the count being right) with no cluster free |
| `DirSlots.NextSlot` | Software_STM32F407/FatFs/ff.c:1714-1765 | without stretching nothing but the cursor moves, and FR_NO_FILE means the end of the table |
| `DirStep.StretchedSlots` | Software_STM32F407/FatFs/ff.c:1745-1757 | a stretched table has its old slots followed by zero slots |
| `DirSlots.DirAlloc` | Software_STM32F407/FatFs/ff.c:1775-1806 | the last of n free slots in a row, with the slot before them in use; FR_DENIED only if there is no such row, and the table is at its maximum or the volume full |
| `DirSlots.ScanStep` | Software_STM32F407/FatFs/ff.c:1788-1801 | one step of the search for a free row |
| `DirSlots.StoreSlot` | Software_STM32F407/FatFs/ff.c:2501-2504 | editing the slot under the cursor in the window changes that slot and nothing else |
| `DirWrite.FilledRunMarked` | Software_STM32F407/FatFs/ff.c:2493-2526 | filling a reserved row from the left never puts an entry behind an end-of-directory mark |
| `DirWrite.WriteEntries` | Software_STM32F407/FatFs/ff.c:2496-2526 | long-name entries in falling order and the short entry fill exactly the reserved slots; the end mark rule holds even if a write fails |
| `DirWrite.RegisterEntries` | Software_STM32F407/FatFs/ff.c:2493-2526 | only slots that were free in the table are overwritten |
| `DirCreate.FindShort` | Software_STM32F407/FatFs/ff.c:2386-2424 | used for short names: FR_OK means that a short entry before the end mark has the name, FR_NO_FILE that none has |
| `DirCreate.VolumeBits` | Software_STM32F407/FatFs/ff.c:2418-2418 | the volume label bit, on bytes as bits |
| `DirCreate.NumberName` | Software_STM32F407/FatFs/ff.c:2480-2491 | the name of the first try that no entry of the directory has; FR_DENIED means that the directory has all 99 |
| `DirCreate.GenNumName` | Software_STM32F407/FatFs/ff.c:1965-2012 | the body is cut, a tilde and the number in hexadecimal follow, the extension stays; the number is the try itself up to five, then the CRC of the long name started with it |
| `DirCreate.HexReads` | Software_STM32F407/FatFs/ff.c:1995-1999 | the digits of the number read back as the number, without leading zero |
| `DirCreate.KnownTries` | Software_STM32F407/FatFs/ff.c:1965-2012 | an example worked out: the name after the tries 5 and 6 for ALONGNAM.TXT of the long name a |
| `DirCreate.TriesDiffer` | Software_STM32F407/FatFs/ff.c:1980-1990 | for one name different tries from the sixth on give different numbers |
| `DirCreate.NumberedInjective` | Software_STM32F407/FatFs/ff.c:1993-2011 | different numbers give different names |
| `DirCreate.DirRegister` | Software_STM32F407/FatFs/ff.c:2434-2529 | FR_OK: the object is in slots that were free, nothing else changed, the end mark rule holds, and a numbered short name is that of the first try unique in the directory. FR_DENIED: the directory has all 99 numbered names, or no place for the entries, being at its maximum or the volume full. Apart from dot names it fails otherwise only if the device failed, or the FAT holds the reserved value 1 |
| `DirRead.DirReadFile` | Software_STM32F407/FatFs/ff.c:2275-2343 | stops at the next file entry; a long name is reported only for an unbroken, checksummed sequence of entries, and then the buffer holds what they say |
| `DirRead.FileEntryBits` | Software_STM32F407/FatFs/ff.c:2311-2332 | which entries are skipped, on bytes as bits |
| `DirRead.RunTerminated` | Software_STM32F407/FatFs/ff.c:2316-2324 | such a sequence leaves a terminated name in the buffer |
| `DirRead.FoundRegistered` | Software_STM32F407/FatFs/ff.c:2275-2343 | at a registered object, whatever its attribute, times, start cluster and size, dir_read finds its name, or no long name if it has no long-name entries and no orphan stands before it |
| `DirRead.NotMissed` | Software_STM32F407/FatFs/ff.c:2275-2343 | dir_read does not miss a registered object, whatever its attribute, times, start cluster and size |
| `DirRead.NamedShort` | Software_STM32F407/FatFs/ff.c:2655-2689 | the short entry of an object without long-name entries shows its name, whatever else it holds |
| `DirRead.CreatedNamed` | Software_STM32F407/FatFs/ff.c:2814-2929 | what create_name hands to dir_register satisfies what the round trip needs, whatever number was added |
| `DirList.ReadDir` | Software_STM32F407/FatFs/ff.c:4627-4655 | the next name: that of the next file entry, which for every object is the name it was created with; an empty name at the end |
| `DirList.ListNames` | Software_STM32F407/FatFs/ff.c:4627-4655 | a listing from offset 0 visits the live file entries in order, and the name of every object of the directory is among the names; it fails only if the device failed |
| `DirList.NewObject` | Software_STM32F407/FatFs/ff.c:2434-2529 | what dir_register writes into a directory in order is an object, and the directory stays in order |
| `DirList.ObjectKept` | Software_STM32F407/FatFs/ff.c:2434-2529 | all objects stay objects with their names |
| `DirList.Create` | Software_STM32F407/FatFs/ff.c:2434-2529 | create_name and dir_register: FR_INVALID_NAME exactly for names that are none or dot names; the new object has the name of the segment, and the short name is the 8.3 form or the first numbered name the directory does not have; FR_DENIED only if the name is no 8.3 name and all 99 numbered ones are taken, or there is no place |
| `DirList.CreateAndList` | Software_STM32F407/FatFs/ff.c:4627-4655 | create, then list from offset 0: the new name and those of all older objects are among the names |
| `DirList.EntryEdited` | Software_STM32F407/FatFs/ff.c:4627-4655 | a file entry changed in anything but name and case flags takes no object away, adds none and keeps the directory in order |
| `DirFile.SyncedObject` | Software_STM32F407/FatFs/ff.c:4124-4132 | so does the entry update of f_sync |
| `DirFile.CreateFile` | Software_STM32F407/FatFs/ff.c:3684-3806 | f_open creating a file: the new entry is an empty file with the archive attribute, the name of the segment and a fresh short name, all other objects are kept, and the file object is open on it; refused with FR_DENIED or FR_INVALID_NAME only for the reasons of `DirList.Create` |
| `DirFile.TableSpared` | Software_STM32F407/FatFs/ff.c:3850-4883 | work on a file, f_sync included, changes nothing in its directory but its entry, and there neither name nor case flags |
| `DirFile.WorkAndList` | Software_STM32F407/FatFs/ff.c:3850-4883 | any sequence of operations on a file, then a listing of its directory: the objects are the same and all their names are listed; without a failure of the device all of it is answered with FR_OK |
| `DirFile.CreateWorkList` | Software_STM32F407/FatFs/ff.c:3653-4883 | create a file, work on it, list: the run is that of a byte sequence starting empty, the new name and all older ones are listed; without a failure of the device only a refusal of the name stops it |
| `UsbSerial.TxStream.UsbWriteOut` | Software_STM32F407/FatFs/ff.c:78-102 | hands the pending bytes over, followed by an empty packet exactly after whole packets, and switches buffers, so that the buffer in flight is not the one being filled; it fails only if the callback gives up |
| `UsbSerial.TxStream.UsbWriteS` | Software_STM32F407/FatFs/ff.c:124-152 | the text is sent or pending behind everything before; a line is sent at once, text without a final line feed that fits stays pending; it fails only if the callback gives up |
| `UsbSerial.TxStream.UsbWrite` | Software_STM32F407/FatFs/ff.c:157-182 | the bytes are sent behind everything before, nothing stays pending; it fails only if the callback gives up |
| `UsbSerial.WriteAll` | Software_STM32F407/FatFs/ff.c:124-182 | for every sequence of calls in which the callback never gives up: bytes sent followed by bytes pending are the concatenation of the inputs; never too many pending, no byte in flight modified |
| `IoPorts.RotatedPermutation` | Software_STM32F407/Src/ioports.c:242-253 | the shifting loop keeps a permutation and the order of the other pins |
| `IoPorts.ClaimStep` | Software_STM32F407/Src/ioports.c:242-253 | unclaimed pins keep the first places in order, and numbers of claimed pins do not move |
| `IoPorts.Pins.Claim` | Software_STM32F407/Src/ioports.c:230-276 | succeeds exactly for an unclaimed pin of the group; its new number denotes it |
| `IoPorts.ClaimAll` | Software_STM32F407/Src/ioports_analog.c:484-513 | after any sequence of claims every number handed out still denotes its pin |
| `Quadrature.Qei.Update` | Software_STM32F407/Src/driver.c:2247-2281 | the counter moves only on an accepted step in the direction of the one before, and trails the net steps by at most one |
| `Quadrature.Transition` | Software_STM32F407/Src/driver.c:2249-2278 | table and state codes mean: single step, and two steps in the same direction |
| `Quadrature.HeldIsNet` | Software_STM32F407/Src/driver.c:2257-2263 | the pins accepted last are the net number of steps modulo four |
| `Quadrature.Decode` | Software_STM32F407/Src/driver.c:2247-2281 | for every sequence of readings the counter differs from the net number of quarter-steps by at most one |

## Left out

- DirNext: on a disk error while stretching nothing is claimed about the table, because the new cluster may be linked but not cleared.
- DirRegister: after a disk error nothing is claimed about the directory as a whole; `WriteEntries` says what holds once the slots are reserved.
- FindShort: `dir_find` only as `dir_register` uses it on FAT12/16/32; looking up a long name is not modelled.
- SyncFs: the result of writing FSInfo is ignored by the code; that it arrived is claimed for a call during which the device did not fail, and in `PowerCycle` whenever it did arrive.
- CountAfterMount: a mount that uses FSInfo which the one before did not use, or did not reach, may start with a stale count; the result excludes this case (`CountsCarried`).
- FailedWriteLost: stated for every run in which the write fails; whether a transfer fails is the device's choice, which the model leaves open, so no single run is exhibited.
- RetriedSyncLost: the same, for every run in which sync_fs fails.
- StaysStored: the operations are those on one open file; creating and removing files in between is not part of the run.
- FSeek: the bytes between the old end and a position behind it are whatever the clusters held.
- FWrite: after a disk error on a file whose last cluster has a FAT12 entry in two sectors nothing is claimed about the file, because its chain may end in a torn link.
- FTruncate: after a disk error nothing is claimed about the file, because its size is already cut and its chain may be partly freed; that every intermediate FAT is a forest is stated for cutting to zero only if nothing links to the first cluster.
- CreateChainX: called at the last cluster, or inside an object with nothing pending, as the file functions do.
- AppendRun: the caller records the size after each append, as `f_write` and `f_lseek` do; the data transfer in between is not part of the run.
- MountVolume: `find_volume`, the partition table and the exFAT branch are not modelled; an accepted volume whose layout does not fit the medium gives no object; that the counts in FSInfo are right is not checked, as in the code.
- ListNames: an application that takes an empty name for the end of the directory stops at an entry without one; the listing here goes on behind it.
- UsbWriteS: after the blocking callback gave up only the state of the buffers is claimed (`UsbWriteOut`), not what became of the text.
- UsbWriteOut: a device failure other than busy is taken as accepted by the code and is not modelled.
- Claim: the map and the claimed flags; pin descriptions and the absence of a map are not modelled.
- Update: direction events, the velocity timeout and the 32-bit width of the counter are not modelled.
- exFAT: the data transfers of the file functions, `remove_chain` and directories on exFAT volumes.
- Timestamps (a parameter of f_sync), attributes, volume labels, locking, object validation, fast seek, current directory and paths of several segments.
- CreateFile: `follow_path` is not modelled, the directory is given and does not have the name; opening an existing file is modelled from its directory entry on, overwriting one is not.
- `f_unlink`, `f_mkdir`, `f_rename`: compositions of the layers above.
- Code page tables (a parameter), multi-byte code pages and Unicode API encodings.
- `usbPutC`, the receive side, `swap_pins`, hardware access.
