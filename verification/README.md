# AlJefra OS kernel: a verified model

A Dafny 4.11 model of the stateful parts of the AlJefra OS kernel, with proofs of
what they keep over whole runs. `dafny verify dfyconfig.toml` checks everything.

| modules | what they model |
|---|---|
| `Bytes`, `Tables` | fixed-width integers, little-endian words, splicing; a table of rows as a map |
| `SectorDisk`, `ByteIO` | a storage device whose transfers may fail part way; byte ranges on 512-byte sectors |
| `Directory`, `Allocator` | the 64-slot BMFS directory, its on-disk form, lookup, and the first-fit allocator |
| `Volume`, `Filesystem` | every BMFS call as a step on a value, and the class whose methods are proved to take those steps |
| `VolumeSafety`, `VolumeSteps`, `VolumeRuns` | the volume invariant, step by step and over every run |
| `VolumeCalls` | what a caller sees of each call: refusals, results, bytes on the device, open descriptors |
| `VolumeDurability` | what the device still has when directory writes fail, and when it can be mounted again |
| `CrashRecovery` | crashes at any moment inside a filesystem call, and the mount after them |
| `VolumeInstances`, `KernelLogInstances` | concrete volumes on which a call does not do what its caller expects |
| `FlatFiles`, `FlatSteps`, `FlatRuns` | the volume as a map from names to flat byte arrays, and what a reader sees |
| `Crc32`, `OtaUpdate` | the package checksum and the over-the-air update state machine |
| `MemoryOps` | word-wise `memcpy`, `memset` and `memmove` |
| `InternetChecksum`, `TcpFrame` | the RFC 1071 checksum and the TCP frames that carry it |
| `Scheduler` | the round-robin scheduler |
| `JsonText` | JSON string escaping and extraction |
| `Dns` | the DNS question encoder and the response walk |
| `KernelLog` | the log ring, its flush through the filesystem, and its replay at boot |

## Main results

- **Volume safety.** Every state of every guarded run of mount, open, close, read,
  write, create, delete and sync keeps distinct names, disjoint extents from block 1
  on, sizes inside their reservation, and descriptors that mirror live entries
  (`VolumeRuns.RunKeepsInv`). Transfers may fail at any point of the run, and a freshly
  formatted device is a start (`VolumeSafety.FormattedVolumeIsGood`).
- **Reads return what was last written.** After a complete write and any run that does
  not disturb the byte, a read that covers it reaches it and returns it, through whatever
  descriptor, unless its own transfer fails (`FlatRuns.ReadsLastWrite`).
- **Refusals and descriptors.** Each call is refused exactly for the reasons its caller can
  check, in terms of names and files (`VolumeCalls.OpenOutcome`, `VolumeCalls.CreateOutcome`,
  `VolumeCalls.DeleteOutcome`, `VolumeCalls.WriteOutcome`), and after every call a
  descriptor is open on a file exactly when it was and the call did not close it, or the
  call was the open that gave it (`VolumeCalls.DescriptorStep`). So a write is read back
  through its own descriptor after any run that leaves both alone
  (`VolumeCalls.ReadsBackThroughDescriptor`).
- **Durability.** A remount restores directory and contents after any run in which no
  write failed, or after a successful sync (`VolumeDurability.RemountRestores`,
  `VolumeDurability.SyncThenRemountRestores`). After one failed flush it restores the
  directory from before or from after that call (`VolumeDurability.FailedFlushThenRemount`),
  and the volume stays mountable through any number of them as long as a good flush
  lies between two (`VolumeDurability.RunStaysMountable`).
- **Filesystem crash safety.** A crash at any moment inside any guarded call, on a volume
  whose directory was on the device, leaves a device that mounts, with the directory from
  before or after the call; every file byte the call was not about to change is there, and
  a byte it was writing is the old or the new one (`CrashRecovery.CrashThenMount`,
  `CrashRecovery.CrashKeepsByte`, `CrashRecovery.CrashedWriteIsOldOrNew`).
- **Update crash safety.** After every sector write of every run of updates, failed
  or interrupted, a clear rollback flag means a complete good image, if every verified
  image comes whole through the storage driver (`OtaUpdate.RunIsSafe`,
  `OtaUpdate.CrashSafe`), which is exactly when a full apply holds it
  (`OtaUpdate.ApplyHoldsIff`).
- **Update contents.** A download stages exactly the bytes that came over the wire behind
  the header (`OtaUpdate.DownloadStages`), in every run only what a verification accepted
  is ever ready (`OtaUpdate.ReadyWasVerified`), and every byte on the device after every
  number of writes is known (`OtaUpdate.BytesAfterWrites`).
- **Error detection.** The CRC detects every burst of at most 32 bits in a buffer of
  any length (`Crc32.BurstDetected`).
- **Bounded waiting.** A ready task runs within as many dispatches as it is places behind
  the current one around the table, at most 63 (`Scheduler.BoundedWaiting`).
- **Log round trip.** Flush, reboot, mount and replay show the last 128 records in
  order, if the volume could hold the log and no transfer fails meanwhile
  (`KernelLog.FlushAndReboot`, `KernelLog.FlushedLogIsShown`).

## Where code and intent part

Each of these is kept as the code has it, with the condition under which it does what
is expected, and an instance where it does not.

| what the code does | condition | instance |
|---|---|---|
| `fs_write` checks a 64-bit sum that can wrap | `WriteContainedIff` | `WrappedWriteHitsDirectory` |
| `fs_create` assumes an end marker behind a reused slot, as its comment says; on a full directory it hides the later files | `CreateKeepsOthersIff` | `CreateHidesFiles` |
| `fs_create` grants runs without a 64-bit byte address | `CreateKeepsWellFormedIff` | `HugeCreateAliases` |
| `fs_create` does not know where the device ends | `AllWritesSucceedIff`, `RunOnDeviceIff` | `NoBlockToWrite` |
| a directory change whose flush failed can be lost by a mount | `RemountRestoresIff` | `UnflushedCreateIsLost` |
| two directory changes whose flushes failed can leave overlapping files to mount | `RunStaysMountable`, `MountKeepsIff` | `TwoFailedFlushesOverlap` |
| `klog_flush` returns 0 after a short write of a record | `StoreHolds`, `FullStoreIsLog` | `FlushReportsSuccess` |
| `ota_apply` hands 4096-byte buffers to drivers that move 512 bytes for a sector | `ApplyHoldsIff` | `SmallSectorsUnsafe` |
| `ota_apply` addresses the device that holds the volume; with 512-byte sectors its flag lies in the directory | `ApplyKeepsVolumeIff` | `SmallSectorsHitDirectory` |
| `ip_checksum` keeps 32 bits and loses a carry out of them | `ExactIff` | `CarryIsLost` |
| `extract_json_string_after_key` wants one byte more behind the key than colon and quotes | `ExtractsEscapedText` | `EmptyValueRefused` |
| `dns_resolve` writes labels that its own walk does not skip: empty ones, and lengths that read as a pointer | `QuestionNameSkippedIff` | `DoubleDotStops` |
| `dns_resolve` does not keep a long question inside its frame | `QuestionFitsIff` | `LongNameOverruns` |
| `sched_block` is undone by the yield it calls | `BlockIsYield` | `BlockedTaskIsReady` |

The guards of a volume run are the conditions of rows 1, 2, 3 and 6, each on the state
before the call: a written range does not wrap, a create that is not refused finds an
end marker and an addressable run, and the directory on a device is well formed when it
is mounted.

## Model

| member | source | states |
|---|---|---|
| `SectorDisk.Disk.Read` | drivers/storage/nvme.c:571-577 | a successful transfer delivers exactly the sectors asked for; a failed one touches nothing outside the target range; a transfer of no sectors or past the end fails |
| `SectorDisk.Disk.Write` | drivers/storage/nvme.c:579-584 | a successful transfer replaces exactly those sectors; a failed one leaves each sector old or new as a whole and no other byte changed |
| `ByteIO.ReadBytes` | kernel/fs.c:232-272 | the buffer receives exactly the device bytes of the range for any alignment and length, nothing beyond it changes, and the only failures are failed transfers |
| `ByteIO.ReadAligned` | kernel/fs.c:241-254 | one request of at most 256 whole sectors moves its bytes to their place, or reports a failed transfer |
| `ByteIO.ReadRagged` | kernel/fs.c:255-268 | the part of one sector goes through the scratch sector and only that part reaches the buffer |
| `ByteIO.WriteBytes` | kernel/fs.c:277-320 | the range holds the new bytes and every other byte of the device is unchanged, read-modify-write included; after a failure each byte of the range is old or new |
| `ByteIO.WriteAligned` | kernel/fs.c:286-298 | one request of at most 256 whole sectors writes its bytes, or tears only inside the range |
| `ByteIO.WriteRagged` | kernel/fs.c:299-316 | read-modify-write keeps the neighbours sharing the sector |
| `Directory.NameMatch` | kernel/fs.c:95-106 | true exactly when the field is the name followed by a NUL, or its first 32 bytes; that is, when the text of the field is the name cut to 32 bytes |
| `Directory.TextUnique` | kernel/fs.c:95-106 | a name field has one text: the bytes before its first NUL, or all 32 |
| `Directory.TextOfPadded` | kernel/fs.c:594-600 | a NUL-padded name reads back as the name |
| `Directory.DirFind` | kernel/fs.c:110-125 | the lowest slot before the end marker holding a file of that name, -1 exactly when there is none |
| `Directory.DirFindFree` | kernel/fs.c:130-147 | the first deleted slot before the end marker, else the marker, -1 exactly when all 64 slots hold files |
| `Directory.DecodeEncodeDir` | kernel/fs.c:72-89 | writing a directory and reading it back gives the same directory |
| `Directory.DecodedName` | kernel/fs.h:12-13 | the name of slot i is the first 32 bytes of its 64-byte entry |
| `Directory.EncodeDecodeDir` | kernel/fs.h:12-17 | every 4096-byte region is the on-disk form of exactly the directory it decodes to |
| `Directory.DecodedSlot` | kernel/fs.h:12-17 | slot i is the 64 bytes at 64 i: 32 of name, then starting block, reserved blocks, size and an unused word, eight bytes each, lowest first |
| `Directory.EncodedSlot` | kernel/fs.h:44-50 | the same of the bytes a directory is written as |
| `Allocator.Collect` | kernel/fs.c:184-193 | the extents of all files before the end marker, in slot order |
| `Allocator.InsertOne` | kernel/fs.c:196-204 | one inner loop inserts its region into the ordered part and moves nothing else |
| `Allocator.InsertionSort` | kernel/fs.c:195-204 | the in-place sort computes the sort function |
| `Allocator.SortedIsOrderedPermutation` | kernel/fs.c:195-204 | the result is ordered by start block and a permutation of the input |
| `Allocator.PassRegion` | kernel/fs.c:209-218 | moving the candidate past a region skips no block where the run would fit |
| `Allocator.GapIsFree` | kernel/fs.c:210-213 | stopping before a region leaves a run that meets no file |
| `Allocator.GapScan` | kernel/fs.c:206-224 | over ordered extents, with 64-bit sums, the scan finds the lowest fit |
| `Allocator.FindFreeBlocks` | kernel/fs.c:173-225 | the lowest block from 1 on where the run touches no file; an unaddressable answer only when no addressable run is free |
| `Filesystem.FileSystem.DirWrite` | kernel/fs.c:83-89 | the directory region holds the cached directory, or the failed transfer leaves each of its sectors old or new |
| `Filesystem.FileSystem.DirRead` | kernel/fs.c:72-80 | the cache becomes the directory decoded from the device |
| `Filesystem.FileSystem.CheckTag` | kernel/fs.c:355-365 | succeeds only on a device with the tag, and fails on one only with a failed transfer |
| `Filesystem.FileSystem.Mount` | kernel/fs.c:324-379 | closes all descriptors, and mounts the device's directory exactly when the tag is there and the transfers succeed |
| `Filesystem.FileSystem.Open` | kernel/fs.c:409-442 | the first descriptor already open on the file, else the first free one filled from the entry, else -1 |
| `Filesystem.FileSystem.Close` | kernel/fs.c:532-538 | frees that descriptor and no other; other numbers are ignored |
| `Filesystem.FileSystem.Size` | kernel/fs.c:521-530 | the size held by a usable descriptor, 0 for any other |
| `Filesystem.FileSystem.Read` | kernel/fs.c:444-473 | the bytes from the offset to the end of file at most, 0 at the end, -1 only for a bad descriptor or a failed transfer |
| `Filesystem.FileSystem.Write` | kernel/fs.c:475-519 | refused, torn inside its range, or complete with descriptor, directory and device agreeing on a grown size; at every moment the device holds what some outcome of the call leaves |
| `Filesystem.FileSystem.CheckName` | kernel/fs.c:550-565 | accepts exactly names of 1 to 31 bytes that do not begin with a sentinel |
| `Filesystem.FileSystem.FillSlot` | kernel/fs.c:591-622 | the new entry in its slot and an end marker behind it where there was none |
| `Filesystem.FileSystem.Create` | kernel/fs.c:540-634 | refused without effect, or a new entry at the free slot with an allocated run, flushed; 0 exactly when the flush succeeded; at every moment the device holds what some outcome of the call leaves |
| `Filesystem.FileSystem.CloseEntry` | kernel/fs.c:652-656 | no descriptor stays open on the entry, the others are untouched |
| `Filesystem.FileSystem.Delete` | kernel/fs.c:636-670 | refused without effect, or the entry marked deleted, its descriptors closed and the directory flushed; at every moment the device holds what some outcome of the call leaves |
| `Filesystem.FileSystem.Sync` | kernel/fs.c:672-678 | the cached directory is written to the device; at every moment the device holds what some outcome of the call leaves |
| `VolumeSafety.FormattedVolumeIsGood` | kernel/fs.h:7-13 | a device with the tag and a zero directory region satisfies the volume invariant and holds no file |
| `VolumeSafety.FlushKeepsRest` | kernel/fs.c:83-89 | a flush, torn or not, keeps the tag and every byte from block 1 on |
| `VolumeSafety.CreatedLive` | kernel/fs.c:577-622 | exactly which slots hold files after a create |
| `VolumeSafety.CreateKeepsOthersIff` | kernel/fs.c:607-622 | every other file stays exactly when an end marker follows the slot or no file lies behind it; otherwise the files behind it disappear |
| `VolumeSafety.CreateIsFound` | kernel/fs.c:577-622 | after a create, lookup of the name returns the chosen slot |
| `VolumeSafety.CreatedNormalisedIff` | kernel/fs.c:607-622 | only end markers lie behind the first one after a create exactly when one followed the slot, or the slot is 62 |
| `VolumeSafety.CreateKeepsWellFormedIff` | kernel/fs.c:584-622 | a create keeps the directory well formed exactly when an addressable run of that length was free and an end marker followed the slot, or the slot is 62 |
| `VolumeSafety.DeletedLive` | kernel/fs.c:658-659 | a delete removes exactly one file and keeps the directory normalised |
| `VolumeSafety.GrowKeepsWellFormed` | kernel/fs.c:506-510 | recording a larger size inside the reservation keeps the directory well formed |
| `VolumeSteps.AddressPlain` | kernel/fs.c:466-467 | inside a well-formed extent the 64-bit address does not wrap |
| `VolumeSteps.WriteContainedIff` | kernel/fs.c:492-501 | an accepted write stays inside its file's extent exactly when offset plus length stays below 2^64 |
| `VolumeSteps.WriteBeforeFile` | kernel/fs.c:492-501 | a two-byte write accepted by the space check that begins one byte before the file |
| `VolumeSteps.WriteLands` | kernel/fs.c:492-501 | on a good volume an accepted unwrapped write lands in its own file's extent, behind block 0 |
| `VolumeSteps.MountSucceeds` | kernel/fs.c:355-371 | on a device with the tag a mount succeeds exactly when no read fails |
| `VolumeSteps.MountKeepsIff` | kernel/fs.c:324-379 | a mount leaves a good volume exactly when the directory on the device is well formed |
| `VolumeSteps.MountKeeps` | kernel/fs.c:324-379 | a mount then moves no byte, puts the directory in force, and loses no file if the cached directory was on the device |
| `VolumeSteps.RemountRestoresIff` | kernel/fs.c:324-379 | a remount brings the cached directory back exactly when it was on the device |
| `VolumeSteps.OnDeviceIsMountable` | kernel/fs.c:367-371 | a good volume whose cached directory is on the device can be mounted |
| `VolumeSteps.WriteSucceedsIff` | kernel/fs.c:499-504 | an accepted write can succeed exactly when its range lies on the device |
| `VolumeSteps.AllWritesSucceedIff` | kernel/fs.c:220-224 | every accepted write to a file can succeed exactly when its whole reservation lies on the device |
| `VolumeSteps.RunOnDeviceIff` | kernel/fs.c:220-224 | the allocator's run lies on the device exactly when a lowest fit does |
| `VolumeSteps.OpenKeeps` | kernel/fs.c:409-442 | opening keeps the volume invariant |
| `VolumeSteps.CloseKeeps` | kernel/fs.c:532-538 | closing keeps the volume invariant |
| `VolumeSteps.WriteKeeps` | kernel/fs.c:475-519 | an unwrapped write, complete, torn or refused, keeps the volume invariant |
| `VolumeSteps.CreateKeeps` | kernel/fs.c:540-634 | a guarded create keeps the volume invariant, also when its flush fails |
| `VolumeSteps.DeleteKeeps` | kernel/fs.c:636-670 | a delete keeps the volume invariant, also when its flush fails |
| `VolumeSteps.SyncKeeps` | kernel/fs.c:672-678 | a sync keeps the invariant, and a successful one leaves the cached directory on the device |
| `VolumeRuns.StepKeepsInv` | kernel/fs.c:324-678 | every guarded call keeps the volume invariant |
| `VolumeRuns.RunKeepsInv` | kernel/fs.c:324-678 | the invariant holds in every state of every guarded run |
| `VolumeRuns.AllInUse` | kernel/fs.c:424-441 | if all 64 descriptors are in use, every slot has one, by counting |
| `VolumeRuns.OpenSucceeds` | kernel/fs.c:409-442 | on a good volume, opening an existing file always yields a descriptor for it |
| `VolumeCalls.MountReadsDevice` | kernel/fs.c:324-379 | a mount that succeeds found "BMFS" at byte 1024, and slot i of its directory is the 64 bytes at 4096 + 64 i |
| `VolumeCalls.FlushWritesDevice` | kernel/fs.c:83-89 | a flush that succeeds puts each slot there and changes no byte outside 4096 to 8191 |
| `VolumeCalls.FoundIffThere` | kernel/fs.c:110-125 | lookup fails exactly when no file has the name, cut to 32 bytes |
| `VolumeCalls.FullIff64` | kernel/fs.c:130-147 | there is no free slot exactly when there are 64 files |
| `VolumeCalls.FreeSlotIsLowest` | kernel/fs.c:130-147 | the slot a create takes is the lowest one without a file |
| `VolumeCalls.OpenOutcome` | kernel/fs.c:409-442 | -1 without effect exactly when nothing is mounted or no file has the name; else the descriptor already open on it, or the lowest free one, and no other descriptor changes |
| `VolumeCalls.CreateRefusedIff` | kernel/fs.c:540-582 | a create is refused exactly when nothing is mounted, the device is read-only, the name is empty, longer than 31 bytes or begins with byte 1, a file has it, or there are 64 files |
| `VolumeCalls.CreateOutcome` | kernel/fs.c:540-634 | -1 without effect exactly then; otherwise the directory changes and the result is 0 exactly when no write failed |
| `VolumeCalls.CreateEffect` | kernel/fs.c:577-622 | the lowest slot without a file gets the padded name, size 0, the blocks asked for, at least one, at the lowest block from 1 on where they meet no file; every lower block has a file in the way |
| `VolumeCalls.DeleteOutcome` | kernel/fs.c:636-670 | -1 without effect exactly when nothing is mounted, the device is read-only or there is no such file; otherwise 0 exactly when no write failed |
| `VolumeCalls.AcceptsIff` | kernel/fs.c:492-497 | an unwrapped write passes the space check exactly when it ends inside the reserved blocks of 2 MiB |
| `VolumeCalls.WriteOutcome` | kernel/fs.c:475-519 | refused without effect exactly for a descriptor that is not open, a read-only device or a range behind the reservation; otherwise all bytes, or -1 with one failed transfer |
| `VolumeCalls.ReadOutcome` | kernel/fs.c:444-473 | -1 for a descriptor that is not open, 0 at the end of the file, else the bytes up to its end or -1 with one failed transfer |
| `VolumeCalls.SyncOutcome` | kernel/fs.c:672-678 | 0 exactly when the volume is mounted and no write failed |
| `VolumeCalls.DeleteDescriptors` | kernel/fs.c:652-656 | a delete closes the descriptors of its file and leaves every other as it was |
| `VolumeCalls.DescriptorStep` | kernel/fs.c:324-678 | after every guarded call a descriptor is open on a file exactly when it was and the call did not close it, or the call was the open that returned it |
| `VolumeCalls.RunKeepsDescriptor` | kernel/fs.c:324-678 | over every run a descriptor stays on its file until it is closed, the file is deleted, or a mount happens |
| `VolumeCalls.ReadsBackThroughDescriptor` | kernel/fs.c:444-519 | after a complete write and any run that neither closes its descriptor nor disturbs the byte, a read through the same descriptor returns it |
| `VolumeDurability.TornFlushIsOldOrNew` | kernel/fs.c:83-89 | a failed flush of a directory with one new entry leaves the old directory or the new one on a device that had the old |
| `VolumeDurability.StepOnRegion` | kernel/fs.c:324-678 | every guarded call leaves the directory on the device alone, writes it, or tears one entry of it with a failed write |
| `VolumeDurability.StepKeepsSynced` | kernel/fs.c:324-678 | a call without a failed write keeps the cached directory on the device |
| `VolumeDurability.StepLeavesOldOrNew` | kernel/fs.c:506-670 | after any call on a volume whose directory was on the device, the device has the directory from before or from after it |
| `VolumeDurability.RunKeepsSynced` | kernel/fs.c:324-678 | so does a whole run without a failed write |
| `VolumeDurability.RunStaysMountable` | kernel/fs.c:324-678 | a volume can be mounted after any run in which writes failed only while the device had the cached directory |
| `VolumeDurability.RemountRestores` | kernel/fs.c:324-379 | after any run in which no write failed, a mount without a failed read succeeds and gives the same directory and contents |
| `VolumeDurability.SyncThenRemountRestores` | kernel/fs.c:672-678 | after any run, a successful sync and a mount without a failed read give the same directory and file bytes, whatever failed before |
| `VolumeDurability.FailedFlushThenRemount` | kernel/fs.c:324-379 | after one failed flush a mount without a failed read succeeds and gives a good volume with the directory from before or after that call |
| `VolumeInstances.CreateHidesFiles` | kernel/fs.c:607-622 | on a good volume with a full directory, a create that reports success hides 63 files |
| `VolumeInstances.WrappedWriteHitsDirectory` | kernel/fs.c:492-501 | on a good volume, a write whose end wraps reports success and replaces the directory on the device |
| `VolumeInstances.UnflushedCreateIsLost` | kernel/fs.c:624-628 | on any formatted device, any file whose create did not reach the device is found until the next mount and not after it |
| `VolumeInstances.HugeCreateAliases` | kernel/fs.c:573-605 | a formatted device grants 2^43 blocks, and the next file then has the address of the first |
| `VolumeInstances.NoBlockToWrite` | kernel/fs.c:220-224 | a device that ends with its directory grants a block, and no write to that file succeeds |
| `VolumeInstances.TwoFailedFlushesOverlap` | kernel/fs.c:624-665 | a delete and a create that takes its block, both with failed flushes, leave two files on that block of the device |
| `FlatFiles.ReadRefines` | kernel/fs.c:444-473 | a read is the clamped slice of the flat file under the descriptor's name |
| `FlatFiles.ReadKeeps` | kernel/fs.c:444-473 | a read changes no file |
| `FlatFiles.WriteRefines` | kernel/fs.c:475-519 | a complete write splices one flat file, extends its size and changes no other file |
| `FlatFiles.WriteElsewhere` | kernel/fs.c:492-504 | a write inside one extent misses every byte of every other file |
| `FlatSteps.TornWriteRefines` | kernel/fs.c:503-504 | a failed write leaves each byte of its range old or new, in its own file and nowhere else |
| `FlatSteps.CreateRefines` | kernel/fs.c:540-634 | a create adds one empty file under a new name, or does nothing |
| `FlatSteps.DeleteRefines` | kernel/fs.c:636-670 | a delete removes exactly one name, or does nothing |
| `FlatSteps.SameFiles` | kernel/fs.c:83-89 | a flush changes no file |
| `FlatRuns.StepKeepsByte` | kernel/fs.c:324-678 | every guarded call keeps a byte inside a file's size, unless it writes it, deletes its file, or is a mount that discards directory changes |
| `FlatRuns.RunKeepsByte` | kernel/fs.c:324-678 | over any run of such calls the byte stays, and stays inside the size |
| `FlatRuns.WriteSetsByte` | kernel/fs.c:475-519 | after a complete write each byte of its range is the written one |
| `FlatRuns.ReadSeesByte` | kernel/fs.c:444-473 | a read that covers a byte reaches it and returns it, unless its transfer fails |
| `FlatRuns.ReadsLastWrite` | kernel/fs.c:444-519 | a read that covers a byte reaches it and returns what was last written there, through any run in between and any descriptor |
| `CrashRecovery.LeavesIsInside` | kernel/fs.c:475-678 | the device states that the calls are proved to pass through are those of a crash inside them |
| `CrashRecovery.CrashThenMount` | kernel/fs.c:324-678 | after a crash at any moment of a call a mount succeeds, with the directory from before the call or from after an outcome of it |
| `CrashRecovery.CrashKeepsByte` | kernel/fs.c:324-678 | and every file byte the call was not about to change is still there |
| `CrashRecovery.CrashedWriteIsOldOrNew` | kernel/fs.c:475-519 | and a byte that a write was changing is the old or the new one |
| `Crc32.Crc32Byte` | kernel/ota.c:51-61 | the shift loop computes the eight register turns of the reference function |
| `Crc32.Crc32Buf` | kernel/ota.c:63-70 | the loop computes the reference CRC of the buffer |
| `Crc32.TurnIsLinear` | kernel/ota.c:54-59 | one register turn is linear over exclusive or |
| `Crc32.TurnIsInjective` | kernel/ota.c:54-59 | one register turn loses no information |
| `Crc32.FoldAsBits` | kernel/ota.c:51-70 | folding bytes is feeding their bits one at a time, lowest first |
| `Crc32.WindowAtOnce` | kernel/ota.c:51-70 | up to 32 bits fed in turn act as one word fed at once |
| `Crc32.BurstDetected` | kernel/ota.c:51-70 | two different buffers whose bits agree outside 32 consecutive places have different CRCs |
| `Crc32.FourBytesDetected` | kernel/ota.c:51-70 | any corruption of at most four consecutive bytes changes the CRC |
| `Crc32.PolynomialIsStandard` | kernel/ota.c:56 | the constant is the reflected generator of section 8 of RFC 1952 |
| `Crc32.CheckValue` | kernel/ota.c:63-70 | the published check value of the standard CRC-32 |
| `OtaUpdate.NextWrite` | kernel/ota.c:541-597 | write number i takes the device from one prefix state to the next |
| `OtaUpdate.BytesAfterWrites` | kernel/ota.c:541-597 | every byte of the device after the first i writes: magic and length in sector 9 until the last write clears it, 4096 bytes of the image for each sector from 10 on with zeros behind its end, all else as it was |
| `OtaUpdate.CountIsLeast` | kernel/ota.c:569 | the sectors written are as many as the image takes and no more |
| `OtaUpdate.EveryPrefixSafe` | kernel/ota.c:541-597 | after every prefix of the writes of an image that comes whole a clear flag implies a complete good image |
| `OtaUpdate.HeldBytes` | kernel/ota.c:568-590 | a device that holds an image holds each of its bytes in place |
| `OtaUpdate.HeldPadding` | kernel/ota.c:579-581 | and zeros behind it up to the end of its last block |
| `OtaUpdate.ApplyCompletes` | kernel/ota.c:592-597 | after all writes the flag is clear, and the staged image is complete if it came whole |
| `OtaUpdate.ApplyHoldsIff` | kernel/ota.c:568-590 | a full apply holds every image of n bytes exactly when the driver moves 4096 bytes for a sector, or at least n |
| `OtaUpdate.ByteLeftBehind` | drivers/storage/virtio_blk.c:249 | otherwise a byte of an image of that length never reaches the device |
| `OtaUpdate.SmallSectorsUnsafe` | drivers/storage/virtio_blk.c:249 | with 512-byte sectors a successful apply of 513 verified bytes clears the flag and leaves no good image |
| `OtaUpdate.ApplyKeepsVolumeIff` | kernel/ota.c:541-597 | applies of images of n bytes keep the tag and the directory of a volume on the device, at every moment, exactly when the sectors written lie clear of them |
| `OtaUpdate.SmallSectorsHitDirectory` | kernel/ota.c:592-597 | with 512-byte sectors every apply ends with zeros in directory slots 8 to 15 |
| `OtaUpdate.StepKeepsInv` | kernel/ota.c:367-605 | if verified images come whole, every step keeps: ready means verified, staging fits 256 KB, the device is safe |
| `OtaUpdate.RunIsSafe` | kernel/ota.c:367-605 | the same in every state of every run, with reboots at any moment |
| `OtaUpdate.CrashSafe` | kernel/ota.c:541-597 | every device state recorded during an apply is safe, including after failed writes |
| `OtaUpdate.OnlyVerifiedBytes` | kernel/ota.c:488-530 | the kernel area changes only from the ready state, to verified bytes, and needs a new verification afterwards |
| `OtaUpdate.ReadyWasVerified` | kernel/ota.c:367-605 | in every run, what is ready to be applied is what the last successful verification saw |
| `OtaUpdate.CorruptDownloadRejected` | kernel/ota.c:472-482 | a package corrupted in at most four consecutive bytes fails its announced CRC |
| `OtaUpdate.Device.Write` | kernel/ota.c:560 | as many bytes of the buffer as the driver moves for a sector are written, or a failure that wrote them or not |
| `OtaUpdate.Updater.Download` | kernel/ota.c:367-486 | succeeds exactly when the package fits, arrives completely and matches its CRC, and then staging holds what was received |
| `OtaUpdate.ReceivesPrefix` | kernel/ota.c:439-468 | the receive loop stages the pieces laid end to end, cut at the wanted length, up to the first empty one |
| `OtaUpdate.DownloadStages` | kernel/ota.c:416-468 | what is staged is the bytes behind the header and then those received, in order, cut at the content length or, without one, the announced size; success exactly when they are enough, fit 256 KB and have the announced CRC |
| `OtaUpdate.Updater.ReceiveRest` | kernel/ota.c:439-468 | staging holds what came with the header and then the chunks in order, cut at the announced length; complete exactly when that length is reached |
| `OtaUpdate.Updater.Verify` | kernel/ota.c:488-521 | ready exactly when something is staged and passes the signature check |
| `OtaUpdate.Updater.Apply` | kernel/ota.c:523-605 | refused unless ready; writes are tried in order up to the first failure among flag and image, and it succeeds exactly when none of those failed; every state the device goes through is a prefix of the writes; if the last write succeeded as well, the flag is clear and an image that came whole is complete |
| `OtaUpdate.Updater.WriteKernel` | kernel/ota.c:568-590 | sector after sector of the zero-padded image, stopping at the first failure; success exactly when none failed |
| `OtaUpdate.Updater.NextSector` | kernel/ota.c:573-581 | one buffer of the staged image, the last one padded with zeros |
| `MemoryOps.SplitJoin` | lib/string.c:23-28 | a word loaded and stored is eight bytes copied |
| `MemoryOps.WideSplits` | lib/string.c:52-55 | the widened fill value holds the byte eight times |
| `MemoryOps.CopyWord` | lib/string.c:25-28 | one word step copies eight bytes, aligned, even if the words overlap |
| `MemoryOps.CopyUp` | lib/string.c:77-93 | the ascending copy equals a copy through a temporary if it never reads what it wrote |
| `MemoryOps.CopyDown` | lib/string.c:94-114 | the descending copy equals a copy through a temporary when the destination is not below the source |
| `MemoryOps.Memcpy` | lib/string.c:11-37 | for disjoint ranges, or a destination below the source, the bytes are moved and nothing else changes |
| `MemoryOps.Memmove` | lib/string.c:72-116 | for any two ranges, overlap and alignment, the bytes are moved as through a temporary and nothing else changes |
| `MemoryOps.Memset` | lib/string.c:39-70 | the range is filled with the low byte of the value and nothing else changes |
| `InternetChecksum.FoldCarries` | net/checksum.h:22-23 | folding gives the representative modulo 65535 that is zero only for zero |
| `InternetChecksum.IpChecksum` | net/checksum.h:12-25 | the loops compute the complemented folded 32-bit sum, odd length included |
| `InternetChecksum.OnesSumIsRep` | net/checksum.h:12-25 | deferring the carries equals the one's complement sum of section 1 of RFC 1071 |
| `InternetChecksum.ExactIff` | net/checksum.h:15-25 | the result is the one's complement checksum exactly when the plain sum fits 32 bits |
| `InternetChecksum.ShortIsExact` | net/checksum.h:15-25 | it does for every buffer of at most 65537 words |
| `InternetChecksum.CarryIsLost` | net/checksum.h:15-25 | a buffer of 65538 words with a wrong checksum |
| `InternetChecksum.OddIsPadded` | net/checksum.h:20-21 | a last odd byte counts as if a zero followed it, section 2 of RFC 1071 |
| `InternetChecksum.WorkedExample` | net/checksum.h:12-25 | the sum and checksum of the example in section 3 of RFC 1071 |
| `InternetChecksum.StoredVerifies` | net/checksum.h:12-25 | storing the checksum in its zeroed field makes the buffer sum to zero |
| `InternetChecksum.ByteOrderIndependent` | net/checksum.h:12-25 | swapping the bytes of every word swaps the bytes of the checksum, section 2(B) of RFC 1071 |
| `InternetChecksum.PseudoSum` | net/tcp.c:104-110 | the six terms are the word sum of the pseudo-header of section 3.1 of RFC 793 |
| `InternetChecksum.TcpChecksum` | net/tcp.c:99-125 | equals the Internet checksum of pseudo-header and segment laid end to end |
| `TcpFrame.Net16IsBig` | net/tcp.c:148-154 | a swapped 16-bit field reads back in network byte order |
| `TcpFrame.Net32IsBig` | net/tcp.c:153-162 | a swapped 32-bit field reads back in network byte order |
| `TcpFrame.IpPartVerifies` | net/tcp.c:144-156 | the IP header as sent sums to zero |
| `TcpFrame.TcpPartVerifies` | net/tcp.c:158-175 | the segment as sent sums to zero with its pseudo-header, for every payload |
| `TcpFrame.SentFrameAccepted` | net/tcp.c:128-181 | a receiver that recomputes both checksums from the frame itself accepts every frame sent, whatever the padding |
| `TcpFrame.SentFrameCarries` | net/tcp.c:128-181 | the receiver reads back every header field but the checksums, constants included, and the payload |
| `TcpFrame.Sender.Send` | net/tcp.c:128-181 | the buffer holds the frame and zeros, at least 60 bytes are transmitted, a receiver accepts them and reads back what was sent, the identification advances modulo 2^16 |
| `TcpFrame.Sender.FillIp` | net/tcp.c:139-156 | Ethernet and IP headers with the checksum in place, nothing else changed |
| `TcpFrame.Sender.FillTcp` | net/tcp.c:158-175 | the segment with the checksum in place, nothing else changed |
| `Scheduler.InitInv` | kernel/sched.c:20-35 | task 0 running, all others dead, one task, and the invariant |
| `Scheduler.StepKeepsInv` | kernel/sched.c:37-127 | every call keeps the count equal to the live tasks and no task but the current one running |
| `Scheduler.OneTaskRuns` | kernel/sched.c:75-98 | after a dispatch among several tasks exactly the current one runs |
| `Scheduler.BlockIsYield` | kernel/sched.c:100-106 | among several tasks a block does what a yield does; the task stays blocked exactly when it is alone |
| `Scheduler.BlockedTaskIsReady` | kernel/sched.c:100-106 | with two tasks, the one that blocks is ready right after |
| `Scheduler.DispatchGetsCloser` | kernel/sched.c:85-95 | a dispatch runs the waiting task or comes strictly closer to it, going forward around the table |
| `Scheduler.OthersKeepWaiting` | kernel/sched.c:37-115 | creating and unblocking tasks does not push a waiting task back |
| `Scheduler.CreateTakesLowest` | kernel/sched.c:37-73 | a create takes the lowest dead slot from 1 on, and fails without effect only when there is none |
| `Scheduler.NewTaskWaits` | kernel/sched.c:37-115 | a created task, and an unblocked one, waits from then on |
| `Scheduler.BoundedWaiting` | kernel/sched.c:75-127 | in every run a ready task becomes current and running within as many dispatches as it is places ahead, at most 63 |
| `Scheduler.Sched.constructor` | kernel/sched.c:20-35 | task 0 running, all others dead |
| `Scheduler.Sched.Create` | kernel/sched.c:37-73 | the first dead slot above 0 becomes ready, -1 exactly when there is none |
| `Scheduler.Sched.Yield` | kernel/sched.c:75-98 | the next ready task in cyclic order runs, the current one counting last |
| `Scheduler.Sched.Next` | kernel/sched.c:87-95 | the search finds the first ready task behind the current one, which counts last |
| `Scheduler.YieldGoesForward` | kernel/sched.c:85-95 | a dispatch runs the task some k places on, modulo 64, and no task fewer places on was ready |
| `Scheduler.Sched.Block` | kernel/sched.c:100-106 | blocks, then yields |
| `Scheduler.Sched.Unblock` | kernel/sched.c:108-115 | readies exactly a blocked task; other numbers are ignored |
| `Scheduler.Sched.Tick` | kernel/sched.c:122-127 | a tick is a yield |
| `JsonText.FitFits` | kernel/ai_bridge.c:131-149 | the escaped prefix fits with its terminator and is the longest the loop admits |
| `JsonText.FitsWholeIff` | kernel/ai_bridge.c:131 | the whole text is escaped exactly when its last byte still finds two places and the terminator |
| `JsonText.EscapeInto` | kernel/ai_bridge.c:131-148 | the buffer receives whole escapes only, of a prefix of the text |
| `JsonText.JsonEscape` | kernel/ai_bridge.c:126-150 | the buffer holds the terminated escape of a prefix and nothing beyond its limit is written |
| `JsonText.EscapedForms` | kernel/ai_bridge.c:132-147 | quote, backslash, newline, return and tab become two bytes, every other byte stays |
| `JsonText.DecodeEscaped` | kernel/ai_bridge.c:227-244 | escaped text in quotes decodes to the text, cut to the room there is |
| `JsonText.DecodedForms` | kernel/ai_bridge.c:234-241 | what a backslash and any byte decode to, and a backslash at the end |
| `JsonText.DecodePlain` | kernel/ai_bridge.c:227-244 | text without quotes and backslashes decodes to itself, up to a quote or the end |
| `JsonText.QuoteIsEscaped` | kernel/ai_bridge.c:133-135 | every quote in escaped text stands behind a backslash |
| `JsonText.NoKeyInside` | kernel/ai_bridge.c:131-148 | escaped text never contains the quoted content key |
| `JsonText.FindKey` | kernel/ai_bridge.c:213-216 | the first acceptable place of the key, -1 exactly when there is none |
| `JsonText.FindValue` | kernel/ai_bridge.c:217-226 | the start of the quoted value behind colon and blanks, -1 if there is none |
| `JsonText.ValueDecides` | kernel/ai_bridge.c:217-226 | behind the first colon and the blanks after it, a quote begins the value and any other byte, or none, is refused |
| `JsonText.NoColonNoValue` | kernel/ai_bridge.c:217-220 | without a colon there is no value |
| `JsonText.DecodeInto` | kernel/ai_bridge.c:227-244 | the buffer holds the terminated decoded value; nothing beyond its limit is written |
| `JsonText.ExtractAfterKey` | kernel/ai_bridge.c:205-247 | result and buffer of the extraction, with every failure; a failure leaves the buffer alone, and nothing beyond its limit is written |
| `JsonText.KeyOfDocument` | kernel/ai_bridge.c:213-216 | in a document whose key occurs first at its member, the search stops there exactly when a byte besides colon and quotes follows |
| `JsonText.ExtractsEscapedText` | kernel/ai_bridge.c:205-247 | extraction returns the escaped text, cut to the buffer, exactly under that condition, and fails otherwise |
| `JsonText.UnquotedRefused` | kernel/ai_bridge.c:224-225 | a value that is not a quoted string is refused |
| `JsonText.EmptyValueRefused` | kernel/ai_bridge.c:213 | a well-formed body, ending with an empty value, that is refused |
| `Dns.ParseResponse` | net/dns.c:139-181 | the loops compute the outcome of the recursive walk and never read outside the message |
| `Dns.SkipPrintedName` | net/dns.c:37-45 | a name of section 4.1.4 of RFC 1035, labels or pointer, is skipped exactly |
| `Dns.QuestionsWalked` | net/dns.c:158-163 | the question section is skipped exactly |
| `Dns.AnswersWalked` | net/dns.c:165-181 | the walk over printed answers finds the first A record with four bytes of data |
| `Dns.ParsePrinted` | net/dns.c:139-181 | for every well-formed response: ignored unless it answers the query, an error code fails, else the first A record, else failure |
| `Dns.ResolvesTo` | net/dns.c:165-177 | a response without an error whose first A record holds a, b, c, d resolves to a 2^24 + b 2^16 + c 2^8 + d |
| `Dns.HeaderDecides` | net/dns.c:139-156 | for any bytes: ignored exactly when shorter than 12, with another identification or without the response bit; an error code or no answer fails |
| `Dns.RecordDecides` | net/dns.c:165-179 | for any bytes: the ten bytes behind a name make its record the answer or say how far to step |
| `Dns.WireResponse` | net/dns.c:139-177 | a complete response, byte by byte, and its address |
| `Dns.JoinLabels` | net/dns.c:80-91 | the labels joined by dots give the host name back, but for one dot at its end |
| `Dns.LabelsHaveNoDot` | net/dns.c:80-91 | and no label has a dot inside |
| `Dns.EncodeName` | net/dns.c:80-91 | memory behind the header receives the printed labels of the host name, wherever they end, and nothing else changes |
| `Dns.EncodedLength` | net/dns.c:80-91 | the exact length of the encoded name |
| `Dns.QuestionFitsIff` | net/dns.c:57-99 | the question stays inside the frame exactly for host names of up to 452 bytes, or 453 with a dot at the end |
| `Dns.LongNameOverruns` | net/dns.c:57-99 | a host name of 453 letters that does not |
| `Dns.EncodeQuestion` | net/dns.c:80-99 | name, root label, type A and class IN for every host name, with the message length, inside the frame or past its end |
| `Dns.QuestionNameSkipped` | net/dns.c:37-99 | for labels of 1 to 191 bytes the resolver's own walk ends exactly at the type |
| `Dns.OddLabelStops` | net/dns.c:37-45 | an empty label, or one from 192 bytes on, ends the walk early |
| `Dns.QuestionNameSkippedIff` | net/dns.c:37-99 | for labels up to 255 bytes the walk is exact if and only if every label has 1 to 191 bytes |
| `Dns.DoubleDotStops` | net/dns.c:80-91 | a host name with two dots in a row whose name is left after three of six bytes |
| `Dns.LongLabelsEitherWay` | net/dns.c:37-91 | from 256 bytes on no condition on label lengths decides: two names of one 257-byte label, one skipped exactly, one not |
| `KernelLog.OldestFirst` | kernel/klog.c:340-354 | reading from the flush start gives the kept records, oldest first, across the wrap |
| `KernelLog.RingAdvances` | kernel/klog.c:283-296 | storing at the head replaces the oldest record only |
| `KernelLog.AppendHolds` | kernel/klog.c:353-359 | a complete write at the end of what the file holds extends it, also over an older longer log |
| `KernelLog.ShortWriteKeeps` | kernel/klog.c:355-357 | a short write there leaves what the file held |
| `KernelLog.WriteFailsWithTransfer` | kernel/klog.c:333-358 | a log fits its one block, so a write into it fails only with a transfer |
| `KernelLog.StoreHolds` | kernel/klog.c:304-364 | after every flush that returns 0 the file holds the header and the records written in full, in order |
| `KernelLog.StoreShown` | kernel/klog.c:304-364 | its replay begins with the records written in full |
| `KernelLog.FullStoreIsLog` | kernel/klog.c:304-364 | and is exactly the ring if no record write was short |
| `KernelLog.KLog.Append` | kernel/klog.c:283-296 | the ring holds the last 128 accepted records |
| `KernelLog.KeptIsLast` | kernel/klog.c:340-354 | the kept records are the last 128 accepted, or all if there are fewer, in order |
| `KernelLog.KLog.Log` | kernel/klog.c:274-302 | accepts exactly messages at or above the level; below 96 records the volume is not touched; from 96 on a replay of the file shows the ring after every call during which no transfer fails |
| `KernelLog.KLog.OpenOrCreate` | kernel/klog.c:311-324 | a descriptor on the log file whenever the volume has it or room for it and no transfer fails during the call |
| `KernelLog.KLog.WriteImage` | kernel/klog.c:326-359 | header and records in order up to the first short write, all of them if no transfer fails; other files are untouched |
| `KernelLog.KLog.Flush` | kernel/klog.c:304-364 | 0 without effect when there is nothing to write; otherwise 0 means the header and some records in order were written, all of them exactly when no record write was short, as when no transfer fails; other files and the volume invariant are kept in any case |
| `KernelLog.HeaderDecodes` | kernel/klog.c:226-242 | magic and count read back from the written header |
| `KernelLog.HeaderLayout` | kernel/klog.c:34-39 | the sixteen bytes of the header: magic, number of records, head, reserved |
| `KernelLog.ForeignShowsNothing` | kernel/klog.c:221-232 | nothing is shown of a file that is too short or has another magic |
| `KernelLog.ShownExactly` | kernel/klog.c:226-254 | of any other exactly as many records as announced, at most 128, that the file has, each from its 272 bytes |
| `KernelLog.ImageRecord` | kernel/klog.c:246-254 | record i of the image lies where replay reads it |
| `KernelLog.ImageShown` | kernel/klog.c:226-254 | a file with the header of n records and the first of them shows those first |
| `KernelLog.Replay` | kernel/klog.c:214-258 | for every file: as many records as the header announces, the file holds and the ring could have had; a prefix of them if a transfer fails; no file changes and the volume invariant is kept |
| `KernelLog.StoreKeepsSynced` | kernel/klog.c:304-364 | a flush without a failed write keeps the directory on the device |
| `KernelLog.RemountKeepsLog` | kernel/klog.c:262-272 | what a replay shows survives the mount of the next boot, which succeeds unless a read fails |
| `KernelLog.FlushedLogIsShown` | kernel/klog.c:214-364 | after a flush that wrote every record without a failed write, a mount without a failed read succeeds and a replay shows exactly those records |
| `KernelLog.FlushAndReboot` | kernel/klog.c:214-364 | if the volume could hold the log and no transfer fails meanwhile, flush, mount and replay succeed and show exactly the last 128 accepted records, oldest first |
| `KernelLogInstances.StaleReplay` | kernel/klog.c:353-363 | on every volume with an older log of as many records, a flush can return 0 after any number of them and the replay shows the old ones behind those |
| `KernelLogInstances.FlushReportsSuccess` | kernel/klog.c:353-363 | a volume on which a flush returns 0 and the replay is not the ring |

## Left out

- Partitions: the volume begins at sector 0, as `fs_init_default` mounts it.
- Null pointers, a missing storage or network driver, and failed buffer allocation.
- `fs_list` and console messages.
- Big-endian hosts: structures are laid out little-endian.
- Devices of 2^64 bytes or more, and sectors torn inside.
- The filesystem on a driver whose sectors are not 512 bytes, which kernel/fs.h assumes; the update client is modelled for every sector size from 8 to 4096 bytes.
- Crashes inside a call on a volume whose last directory flush failed; VolumeInstances.TwoFailedFlushesOverlap shows what two of those can leave.
- `ota_check` and the HTTP and JSON parsing of the update client: what the network delivers is a parameter.
- Ed25519 and SHA-512: the signature check is an arbitrary predicate on the staged bytes; development mode, which skips it, is off.
- The boot loader that reads the rollback flag.
- TCP receive path and streams: the code acknowledges bytes it may drop, so no in-order delivery holds.
- Task stacks, entry points and the switch itself; spin locks: each scheduler call is one atomic step.
- DNS headers, UDP framing, timeouts and retries; what lies in memory behind the frame of a query.
- Dns.QuestionNameSkippedIff: says nothing of labels from 256 bytes on, because there the outcome depends on the bytes of the label, as Dns.LongLabelsEitherWay shows.
- `klog_dump`, message formatting and time stamps: records are opaque 272-byte values.
- Two processors, interrupts inside a call, and aliasing of the caller's buffer with the sector buffer.
- Shell, desktop, GPU engine, drivers, package store and server: user interface and plumbing without comparable state.
