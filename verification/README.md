# TinyOS, verified models

Dafny models of the state machines of TinyOS, an embedded kernel with over-the-air updates, a small file system,
software timers and network codecs, with proofs of what they promise. `dafny verify dfyconfig.toml` checks everything.

The project follows the program's components. Each has a definition on values, lemmas about it over all inputs or whole
runs, and, where the source works in place, classes and methods proved to compute it.

- **Update and boot** (`Bytes`, `Flash`, `BootInfo`, `Crc32`, `Bootloader`, `Ota`, `BootSystem`, `BootSafety`,
  `TrialBoots`, `UpdateTrial`, `UpdateBytes`, `BootChoices`, `CrcResidue`, `CrcBursts`). Flash is a byte array that
  survives reset; every flash call is one atomic step and power may fail between any two. The bootloader's and the
  library's boot records overlay each other byte by byte, as the two C structs do. The main results are that no
  disciplined run bricks the device and that an unconfirmed update is launched at most twice and a confirmed one for
  good. A run is disciplined if no chunk write wraps around 32 bits and, while APP_B runs, no boot partition is selected
  before `ota_init` (unless power fails in the middle of it). Safety holds from any boot record
  (`BootSafety.NeverBricked`); when a boot completes is given exactly (`BootSafety.BootsIff`), and it always does from a
  record that is unreadable or sane: an application is active, the pending partition exists and rollback is enabled.
- **File system** (`BlockCache`, `Bitmap`, `Inodes`, `Dentries`, `FsModel`, `FileData`, `FileLaws`, `FileRuns`,
  `Directory`, `DirList`, `FsRuns`, `DirRuns`, `FileLife`, `Cursors`, `FileSystem`, `Session`, `Mount`). From the
  one-block write-back cache up to the calls: bitmap bytes stand for a set of blocks, packed 40-byte inodes for a table,
  packed 64-byte entries for a map from names to inodes, and files for byte sequences. One mount session from a fresh
  format, at most 1024 blocks, writes inside the device succeed. The inodes that the model follows lie below the data
  area; with the layout of `fs_format` these are the first 120 of 128, and a call that creates a file must find a free
  one among them (`FileSystem.Volume.AllocInode`, `Mount.FormatAndMount`).
- **Scheduler, mutexes, queues** (`Bits`, `Scheduler`, `KernelRuns`, `TaskLife`, `RoundRobin`, `Kernel`, `Inheritance`,
  `Mutexes`, `MsgQueue`, `QueueRuns`). Linked ready queues and a 256-bit bitmap stand for FIFO queues by priority.
  Priority inheritance and message queues are proved over every interleaving. Unlock is two steps, because the priority
  reset inside it yields when it lowers the running owner; the model allows others to run there in any case. Every
  copied byte of a message is a step.
- **Timers** (`TimerList`, `Timer`, `TimerRuns`). The sorted linked list, one pass of the tick handler, and the ticks at
  which a timer fires over whole runs. Callbacks do not call the timer interface.
- **Codecs** (`Coap`, `CoapFormat`, `Mqtt`, `MqttFormat`, `MqttReceive`, `Checksum`, and `Crc32` above). Messages and
  their bytes, in both directions, and each format stated byte by byte apart from the code.

Where the code does not do what its interface suggests, the code is modelled as it is, a lemma shows the failure, and a
lemma gives the exact condition:

- a chunk write whose offset and size wrap around 32 bits leaves the update partition (`Ota.WrappedChunkOverwrites`,
  `Ota.ChunkConfined`);
- selecting a boot partition before `ota_init` saves an invalid record (`BootSystem.SelectionNeedsInit`), which is fatal
  exactly while APP_B runs (`BootSystem.EarlySelectionBricks`, `BootSafety.SelectionThenInit`,
  `BootSafety.SelectionSafeIff`);
- selecting the application that is active already makes the next boot launch the other one, if that verifies, unless
  the checksum of the record, which the bootloader takes for its attempt counter, is 0, 1 or 0xFFFFFFFF
  (`BootChoices.SelectedActiveRollsBack`, `BootChoices.SelectionBoots`);
- an update arms a trial only while the active partition is the running one (`TrialBoots.UpdateArms`);
- a boot cut inside a save makes an unconfirmed update in APP_A permanent, because the default record favours APP_A
  (`TrialBoots.TornBoot`);
- a running task that is chosen again stays marked ready but unqueued, and is lost after its second slice
  (`RoundRobin.LoneTaskIsLost`, `Scheduler.TickConserves`);
- a boost that arrives during an unlock outlives it (`Inheritance.LateBoostLingers`, `Inheritance.UnlockRestoresIff`);
- a wrapped expiry time hides a timer that is due (`TimerList.WrappedTimerHidesDue`, `TimerList.PassIffOrderly`), and a
  period above 2^31 re-arms as due, so that the scan makes no progress (`TimerList.RearmedNotDue`,
  `TimerList.ProgressIffRunning`);
- above QoS 0 the delivered payload is not the published one (`MqttReceive.PublishDelivered`), and a packet with an
  empty body is handled with the bytes of the one before (`MqttReceive.SeenIff`);
- CONNECT is staged past the end of the buffer for bodies of 1020 and 1021 bytes (`Mqtt.LongConnect`,
  `Mqtt.StagingExact`), and a CoAP payload above 1152 bytes is copied past the decoder's (`Coap.PayloadOverflows`,
  `Coap.PayloadFitsIff`); the program's own two callers of the decoder (src/coap.c:470 and 638) receive at most 1152
  bytes, so only a direct caller of `coap_pdu_decode` meets this;
- a write into a hole inside the size is lost (`FileLaws.HoleWriteIsLost`, `FileLaws.ReadBack`), and so is every write
  into a block that an out-of-space write has marked (`FileLaws.MarkedWriteIsLost`, `FileLaws.MarkIffOutOfSpace`);
- a write that stores nothing still sets the size to a position beyond it (`FileLaws.EmptyWrite`), and a file grown that
  way has bytes without blocks (`FileLaws.DenseIff`);
- `fs_format` announces more inodes than fit, and writing the last eight damages the first data block
  (`Inodes.InodePastTable`, `Inodes.FormatLayout`); it clears one block of the table only (`Mount.FormatIffClean`);
- a name of 32 bytes or more cannot be found again (`Directory.CreateUpdatesMap`, `DirRuns.DirectoryIsMap`), and without
  a root block `fs_mkdir` may report success and store nothing (`Directory.CreateReports`).

The comment on the inode structure in the source says 32 bytes; its fields take 40, which is what the model uses.

## Model

| member | source | states |
|---|---|---|
| Flash.Device.Read | drivers/flash.c:102-124 | the bytes read are those of the cells, or the exact error; nothing changes |
| Flash.Device.Write | drivers/flash.c:141-167 | the exact error, or exactly the addressed cells hold the data and one flash call is logged |
| Flash.Device.EraseSector | drivers/flash.c:216-241 | the exact error, or exactly one sector is erased and one flash call is logged |
| Flash.Device.EraseRange | drivers/flash.c:243-262 | the sector loop, with its end computed in 32 bits, goes through exactly the contents of `EraseLog`, stopping at the first sector that fails |
| Flash.EndSectorExact | drivers/flash.c:248-251 | a range erase ends behind its range if and only if start, size and rounding do not wrap around 32 bits |
| Flash.EraseLogConfined | drivers/flash.c:243-262 | every content a range erase goes through agrees with the start outside the range |
| Flash.EraseLogErases | drivers/flash.c:243-262 | a range erase that reports success leaves every byte of the range erased |
| Flash.ProtectionExact | drivers/flash.c:51-60 | the protection test finds a write or erase if and only if some byte of it lies in the protected window, or an empty window lies strictly inside it |
| BootInfo.PartitionsTile | src/ota.c:35-72 | the partition table covers the flash without gap or overlap |
| BootInfo.VerifiesFrame | src/bootloader.c:88-116 | the image check depends only on the bytes of its own partition |
| BootInfo.LoaderRoundTrip | src/bootloader.c:48-83 | a record the bootloader saves is the record it loads, for every well-formed record |
| BootInfo.OtaRoundTrip | src/ota.c:137-183 | a record the OTA library saves is the record it loads |
| BootInfo.OtaSaveSeenByLoader | src/ota.c:24-33 | the two programs share only a prefix: after an OTA save the bootloader sees the common fields and the checksum as attempt counter |
| BootInfo.LoaderSaveSeenByOta | src/bootloader.c:28-39 | after a bootloader save the library sees the common fields and the attempt counter as checksum |
| BootInfo.TornIsInvalid | src/bootloader.c:67-83 | a save cut between erase and write leaves no valid record |
| BootInfo.LoaderLayout | src/bootloader.c:28-39 | where every field of the bootloader's struct lies in flash: words at 0, 4, 8, 12, 16, 24, 28 and 32, flag bytes at 20 and 21 |
| BootInfo.OtaLayout | src/ota.c:24-33 | the same for the library's struct, whose checksum is at 24 |
| Bytes.LowByteFirst | src/bootloader.c:28-39 | the bytes of a stored word are its digits to the base 256, the lowest first |
| Ota.SavedChecksum | src/ota.c:163-183 | the checksum in flash is the CRC-32 of the 24 bytes in front of it |
| Crc32.SerialAppend | src/ota.c:118-129 | the CRC register may be fed a byte string in any two pieces |
| Crc32.TableStep | src/ota.c:98-129 | one table lookup equals eight steps of the bit-serial reflected 0xEDB88320 register (RFC 1952, section 8) |
| Crc32.EntryFor | src/ota.c:98-116 | the inner loop computes the eight-step image of a byte |
| Crc32.Table.Init | src/ota.c:98-116 | every table entry is the eight-step image of its index |
| Crc32.Table.Update | src/ota.c:118-129 | running the table over a buffer is running the bit-serial register over it |
| Crc32.Table.Calculate | src/ota.c:118-129 | the result is the bit-serial CRC-32 of the buffer, for every length |
| Ota.Library.CrcChunk | src/ota.c:557-572 | one chunk read from flash advances the register by exactly its bytes |
| Ota.Library.OtaComputeCrc32 | src/ota.c:537-578 | the CRC computed in 4096-byte chunks is the bit-serial CRC-32 of the whole partition; FlashError exactly when the buffer cannot be had |
| CrcResidue.Residue | src/ota.c:118-129 | a message followed by its own CRC, low byte first, has the same CRC whatever the message |
| CrcResidue.IeeePolynomial | src/ota.c:98-116 | the constant of the table is the polynomial of IEEE 802.3, reflected |
| CrcResidue.CheckVector | src/ota.c:118-129 | a vector that shows the start value, the bit order, the polynomial and the final complement |
| CrcBursts.WordChangeDetected | src/ota.c:118-129 | every change of one 32-bit word, anywhere in a message, changes its CRC |
| Bootloader.WriteBootInfo | src/bootloader.c:67-83 | two flash calls that leave the record saved; the log of flash contents is that of `FlashLog` |
| Bootloader.VerifyPartition | src/bootloader.c:88-116 | the answer is that of the image check on the original flash, whatever was saved meanwhile |
| Bootloader.HandleBootFailure | src/bootloader.c:148-167 | the other application becomes active and is saved, with the counters as the specification says |
| Bootloader.ReadOrInitialize | src/bootloader.c:199-218 | a missing or foreign record is replaced by the default one and saved |
| Bootloader.ChoosePartition | src/bootloader.c:220-240 | a pending update becomes active only if its image passes; otherwise the active one is confirmed |
| Bootloader.CheckAttempts | src/bootloader.c:242-258 | an unconfirmed boot is counted and saved; the third attempt falls back, or stops the boot when rollback is disabled |
| Bootloader.CheckImage | src/bootloader.c:260-277 | an active image that does not verify is replaced by the other one, or nothing boots |
| Bootloader.JumpToApplication | src/bootloader.c:279-306 | the boot is counted and saved, and the launched partition is the active one |
| Bootloader.BootloaderMain | src/bootloader.c:179-306 | the whole boot does what `Run` says of the record and the images: same launch, same saves, and the same flash contents after every flash call |
| Bootloader.FlashLogAt | src/bootloader.c:67-83 | after an even number of flash calls of a boot flash holds a completed save, after an odd number an erased record |
| Ota.Library.Save | src/ota.c:163-183 | the record is checksummed and saved in two flash calls, or the flash error is reported at the call that failed |
| Ota.Library.OtaInit | src/ota.c:189-234 | the state after initialisation, from a valid record or the saved default |
| Ota.Library.OtaStartUpdateFromBuffer | src/ota.c:345-429 | a whole update: header check, erase, write, verification and pending record, with every flash content on the way |
| Ota.Library.OtaWriteChunk | src/ota.c:431-457 | the chunk is programmed at the 32-bit sum of partition start and offset, as the code computes it |
| Ota.Library.OtaFinalizeUpdate | src/ota.c:459-470 | after a completed update the written partition is saved as pending; refused otherwise |
| Ota.Library.OtaSetBootPartition | src/ota.c:596-605 | the selected partition is saved as pending and unconfirmed, whether or not the library was initialised |
| Ota.Library.OtaRollback | src/ota.c:616-634 | the other application is saved as active, pending and confirmed, without looking at its image; OK even if the save fails |
| Ota.Library.OtaConfirmBoot | src/ota.c:636-645 | the running partition is saved as active and confirmed |
| Ota.ChunkConfined | src/ota.c:431-457 | a chunk write stays inside the update partition if and only if offset + size does not wrap around 32 bits |
| Ota.WrappedChunkOverwrites | src/ota.c:431-457 | a concrete chunk write that wraps and destroys the header of the running image |
| BootSystem.WriteImageConfined | src/ota.c:383-417 | writing an image changes only its own partition, at every flash call |
| BootSystem.AlwaysBoots | src/bootloader.c:179-306 | from every flash with an application that verifies and a boot record that is unreadable or sane, the boot launches an application that verifies and is the saved active one; cut after any flash call, the flash is again of that kind |
| BootSystem.CallOutcome | src/ota.c:345-645 | every library call without a 32-bit wrap keeps the running image, every flash content on its way can boot, and a disciplined call that completes keeps the invariant |
| BootSystem.NextKeepsInv | src/bootloader.c:179-306 | every disciplined event, complete or cut after any number of flash calls, keeps the system bootable |
| BootSystem.StaysBootable | src/bootloader.c:179-306 | from a record that is unreadable or sane every disciplined run keeps it so: at every point of the run the next boot completes |
| BootSafety.LaunchPasses | src/bootloader.c:220-306 | from any record a boot launches only an image that passes, and has then saved it as active |
| BootSafety.BootSafe | src/bootloader.c:179-306 | from any record a complete boot keeps the images, and what it launches verifies and is the saved active partition |
| BootSafety.BootCutSafe | src/bootloader.c:67-83 | cut after any flash call, it keeps the images |
| BootSafety.CallSafe | src/ota.c:345-645 | a library call, complete or cut after any flash call, keeps the running image and the bootloader, whatever the record holds; a disciplined one that completes leaves a state from which this holds again |
| BootSafety.SelectionSafeIff | src/ota.c:596-605 | before `ota_init` a boot selection leaves a safe state if and only if it is disciplined: APP_B is not running, or the flash refuses to erase the record |
| BootSafety.SelectionThenInit | src/ota.c:189-234 | after a selection and then `ota_init`, both successful, the library takes the running partition for the spare one if and only if APP_B is running |
| BootSafety.NeverBricked | src/bootloader.c:179-306 | no bricking: from any boot record, over every disciplined run of updates, chunk writes, selections, rollbacks, confirmations, boots, resets and power cuts, some image verifies and the running one does; if the bootloader's partition holds no image, it is an application's |
| BootSafety.BootsIff | src/bootloader.c:220-281 | from any record and images a boot launches something if and only if: an unreadable record and some application; or rollback enabled and one of the choice and its alternative passes; or rollback disabled, attempts left and the choice itself passes |
| BootSafety.BootLaunches | src/bootloader.c:220-306 | which partition a boot launches, from any record and images: the first choice if it passes, else its alternative |
| BootSafety.RunCounts | src/bootloader.c:148-306 | a boot that launches something counts itself once, counts every switch to the other application, and leaves the attempt counter exactly as the rules say |
| BootSystem.SelectionNeedsInit | src/ota.c:596-605 | a successful selection leaves a readable record if and only if the record in RAM has its magic number: always after `ota_init`, never on the zeroed RAM of a launched application |
| BootSystem.EarlySelectionBricks | src/ota.c:596-605 | a concrete run: selection before `ota_init`, then an update cut by a power loss, leaves no image that verifies |
| TrialBoots.UpdateArms | src/ota.c:345-429 | an update that returned OK, with the record sector not protected, leaves an image that verifies, and arms its trial if and only if the active partition is the running one |
| TrialBoots.TrialRun | src/bootloader.c:220-281 | one boot during a trial launches the new image and uses up a launch, or restores the old one |
| TrialBoots.BootKeepsTrial | src/bootloader.c:179-306 | a complete boot leaves fewer launches of the trial image, or has restored the old one for good |
| TrialBoots.BootCutKeepsTrial | src/bootloader.c:67-83 | a boot cut after any flash call adds no launches, if APP_B is on trial; with APP_A on trial, the same for cuts between saves |
| TrialBoots.TornBoot | src/bootloader.c:199-218 | after a boot cut inside a save, the next boot restores the previous application if and only if APP_B is on trial or the trial image does not verify; otherwise the unconfirmed update is launched as confirmed |
| TrialBoots.TrialIsBounded | src/bootloader.c:148-281 | over every run in which no library call saves the record, the previous image stays intact and, with APP_A on trial, no cut falls inside a save, the trial image is launched at most twice and from then on only the previous one |
| UpdateTrial.UpdateStartsTrial | src/ota.c:345-429 | an update that returned OK and was saved, with active equal to running, leaves a device that satisfies the hypothesis of `TrialBoots.TrialIsBounded` with two launches left |
| UpdateTrial.UpdateOnTrial | src/bootloader.c:148-306 | end to end: after update and reset the next boot launches the update, and over every run within the limits of `TrialEvents` it is launched at most twice and from then on only the previous application |
| UpdateTrial.UpdateLaunchedTwice | src/bootloader.c:220-306 | after an update, over flash and with resets in between: the update, the update again, then the previous application, confirmed |
| UpdateBytes.UpdateStores | src/ota.c:345-429 | an update that returns OK leaves exactly the image in the other partition, the rest of that partition erased, and every byte outside it and the record's sector as it was |
| UpdateBytes.ChunkStores | src/ota.c:431-457 | a chunk that does not wrap and returns OK is stored at its offset in the other partition, and no other byte changes |
| UpdateBytes.ChunksAssemble | src/ota.c:431-457 | chunks at consecutive offsets, all accepted, put their concatenation into the other partition and change nothing else |
| BootChoices.ConfirmIsFinal | src/ota.c:636-645 | after a confirmation that returns OK, over every disciplined run without a further library save that keeps the image and, for APP_B, loses no power inside a save, every launch is of the confirmed application |
| BootChoices.RollbackBoots | src/ota.c:616-634 | after a rollback that could save, the next boot launches the other application if and only if it verifies, and else the running one |
| BootChoices.SelectionBoots | src/ota.c:596-605 | after a selection or finalisation the next boot launches the selected application if and only if it verifies and, if it was active already, the checksum read as attempt counter allows it or the other one does not verify |
| BootChoices.SelectedActiveRollsBack | src/ota.c:596-605 | the failure: from every state in which both applications verify there is one with another rollback counter in which selecting the active application makes the next boot launch the other one |
| BootChoices.FinalizeIff | src/ota.c:459-470 | with a writable record a finalisation returns OK if and only if an update is complete |
| BootChoices.CompleteIff | src/ota.c:345-429 | an update with an argument of legal size is complete if and only if it returned OK; after an abort none is |
| BlockCache.ReadTransparent | src/filesystem.c:259-284 | a cached read answers as the uncached store if and only if the address is not mistaken for the mark of an empty cache; the represented store is unchanged |
| BlockCache.WriteTransparent | src/filesystem.c:289-307 | a cached write changes the represented store as an uncached write would |
| BlockCache.SyncTransparent | src/filesystem.c:312-320 | after a sync the device equals the represented store |
| BlockCache.CacheTransparent | src/filesystem.c:259-320 | any sequence of block reads, writes and syncs answers as an uncached store does, and a final sync makes the device equal it |
| BlockCache.Store.ReadBlock | src/filesystem.c:259-284 | the in-place cache and the block returned are those of the specification, dirty eviction included |
| BlockCache.Store.WriteBlock | src/filesystem.c:289-307 | the in-place cache after a write, to the cached block or to the device |
| BlockCache.Store.SyncCache | src/filesystem.c:312-320 | the dirty block goes to the device |
| Bitmap.FirstFree | src/filesystem.c:325-338 | the result is the lowest unused block of the data area, or the mark for none |
| Bitmap.MarkOne | src/filesystem.c:325-338 | setting bit i mod 8 of byte i div 8 adds exactly block i to the used set |
| Bitmap.ClearOne | src/filesystem.c:343-355 | clearing it removes exactly block i |
| Bitmap.Allocator.constructor | src/filesystem.c:153-159 | exactly the reserved blocks are marked |
| Bitmap.Allocator.AllocBlock | src/filesystem.c:325-338 | the lowest unused block is marked and counted, or nothing changes |
| Bitmap.Allocator.FreeBlock | src/filesystem.c:343-355 | a block on the device is unmarked and counted; any other is refused |
| Inodes.EncodeThenDecode | src/filesystem.c:18-26 | the 40-byte layout loses nothing |
| Inodes.InodeLayout | src/filesystem.c:18-26 | where every field of an inode lies in its 40 bytes |
| Inodes.WithInodeAt | src/filesystem.c:398-435 | writing inode n of the packed table reads back as written and leaves every other inode unchanged |
| Inodes.FormatLayout | src/filesystem.c:136-141 | with the layout of `fs_format` a table fits in front of the data area if and only if it has at most 120 inodes; the 128 it announces do not |
| Inodes.InodePastTable | src/filesystem.c:419-435 | writing any of the inodes 120 to 127 writes block 12, the first data block, and changes it unless the inode was already there |
| FsModel.AllocKeeps | src/filesystem.c:684-692 | giving an empty pointer a block, or the out-of-space mark, keeps blocks unshared and the free counter exact |
| FsModel.FreeKeeps | src/filesystem.c:381-393 | giving a pointer back keeps them too, whatever the pointer holds |
| FsModel.ReleaseKeeps | src/filesystem.c:927-936 | freeing pointers k and up keeps the invariant, empties exactly those pointers and changes no block |
| FileData.WrittenKeeps | src/filesystem.c:653-715 | `fs_write` keeps blocks unshared and leaves every other file as it was, at any position and with any amount of free space |
| FileData.AllocIffFree | src/filesystem.c:325-338 | a block is found exactly when the free counter is positive |
| FileData.FullWriteIffRoom | src/filesystem.c:653-715 | from any state and position a write reports all the bytes that fit into six blocks if and only if there are as many free blocks as it must add |
| FileData.Loop | src/filesystem.c:671-701 | the write loop from any state and position: the reported bytes are stored except in blocks that carry the out-of-space mark, every other byte is as before, exactly the empty pointers passed have got a block, and it stops short only when a block is missing and none is free |
| FileLaws.WriteLaw | src/filesystem.c:653-715 | `fs_write` from any state, at any position: reported end, size, free counter, every pointer and every byte of the file; other files are untouched |
| FileLaws.ReadBack | src/filesystem.c:603-715 | what a write reports is what a read at the same position returns, if and only if the file grew or none of the covered pointers was empty, as long as none of them carries the mark |
| FileLaws.MarkedWriteIsLost | src/filesystem.c:684-697 | a write into marked blocks reports all of its bytes, stores none and takes no block, whatever space there is |
| FileLaws.MarkIffOutOfSpace | src/filesystem.c:684-709 | an inode without the mark has none afterwards if and only if the file did not grow or there was room |
| FileLaws.EmptyWrite | src/filesystem.c:671-709 | a write stores nothing if and only if there is nothing to write, the position is beyond six blocks, or its block is missing and none is free; the size grows all the same exactly when the position is beyond it, and out of space the pointer is left marked |
| FileLaws.DenseIff | src/filesystem.c:671-709 | a dense file stays dense if and only if it does not grow, or grows within six blocks, over no marked block and without leaving a missing block behind |
| FileLaws.WriteStamps | src/filesystem.c:703-708 | the modification time changes if and only if the file grew; type and creation time never do |
| FileLaws.TruncateStamps | src/filesystem.c:917-945 | truncation to any size sets the modification time |
| FileRuns.WriteRefines | src/filesystem.c:653-715 | on a dense file with position <= size and no mark among the blocks the write covers, `fs_write` gives old[..pos] + data[..n] + old[pos+n..] for the n it reports, and n is min(len, 3072 - pos) exactly when there is room; other files are untouched |
| FileData.ReadRefines | src/filesystem.c:603-648 | on a dense file `fs_read` returns exactly the matching slice of the contents |
| FileRuns.WriteThenRead | src/filesystem.c:603-715 | on a dense file, at any position, what a write reports a read returns, as long as it covers no mark |
| FileRuns.TruncateRefines | src/filesystem.c:917-945 | truncating a dense file to any size keeps the bytes up to the smaller size; it stays dense if and only if it gets no longer or the blocks up to the new size are there |
| FileRuns.ContentsLaw | src/filesystem.c:603-945 | over every sequence of writes, reads and truncations inside a dense file that has space, each call answers as it would for a byte sequence, the file then holds that sequence, and no other file has changed |
| FileData.UntouchedContents | src/filesystem.c:653-715 | a file an operation does not touch keeps its contents |
| FileData.EmptiedKeeps | src/filesystem.c:560-570 | truncation on open keeps the invariant and empties the file |
| FileData.RemovedKeeps | src/filesystem.c:377-393 | freeing an inode keeps the invariant and every other file |
| FileLaws.HoleWriteIsLost | src/filesystem.c:684-709 | a write inside the size that meets a hole reports all of its bytes, but they are not read back: the pointers are as before and the blocks it took are lost |
| Dentries.StoredName | src/filesystem.c:539-540 | the name field holds the name cut to 31 bytes |
| Dentries.WithEntryAt | src/filesystem.c:533-547 | writing entry i of a directory block changes that entry only, and reads back |
| Dentries.EntryLayout | src/filesystem.c:29-34 | where name, inode number and type lie in the 64 bytes of an entry; no other byte of the block changes |
| Dentries.WithNameAt | src/filesystem.c:978-984 | renaming changes the name of that entry only |
| Dentries.ClearedAt | src/filesystem.c:823-828 | clearing empties that entry only |
| Directory.FindInRoot | src/filesystem.c:440-468 | the directory search is lookup in the map that the entries stand for |
| Directory.FoundInode | src/filesystem.c:440-468 | a name that is found leads to an inode in use, other than the root |
| Directory.LinkKeeps | src/filesystem.c:522-549 | linking adds the stored name if there is a place for it, and touches no other file |
| Directory.CreateUpdatesMap | src/filesystem.c:503-549 | creation adds exactly one key when there are an inode and a place; other files are unchanged; the name is found afterwards if and only if it is shorter than 32 bytes |
| Directory.CreateReports | src/filesystem.c:1025-1051 | creation reports success if and only if there are an inode and a free place, except that with no readable root block it goes by what the buffer held before |
| Directory.RemoveUpdatesMap | src/filesystem.c:796-833 | removal frees the inode and touches no other file; in a directory without duplicate names it drops exactly that key |
| Directory.RenameUpdatesMap | src/filesystem.c:950-989 | renaming touches no inode and no file; in a directory without duplicate names it replaces the key by the stored form of the new name, if no other entry has that, and the new name is found afterwards if and only if it is shorter than 32 bytes |
| DirList.ScanIsNth | src/filesystem.c:1168-1199 | `fs_readdir` at position p returns the p-th live entry, or the end |
| DirList.ListsAll | src/filesystem.c:1156-1200 | repeated `fs_readdir` on an unchanged directory lists every live entry exactly once, in order |
| DirList.ListsRoot | src/filesystem.c:1156-1200 | listing a root with a readable block gives exactly its live entries, no entry twice |
| DirList.NextEntry | src/filesystem.c:1156-1200 | the nested scanning loops compute that entry from cached blocks |
| FileSystem.InodeWritten | src/filesystem.c:419-435 | an inode written to its table block leaves the blocks representing the model with that inode changed |
| FileSystem.Volume.ReadInode | src/filesystem.c:398-414 | through cache, table block and byte layout the inode read is that of the represented file system, or the number is refused |
| FileSystem.Volume.WriteInode | src/filesystem.c:419-435 | the read-modify-write of a table block changes the represented file system in that inode only |
| FileSystem.Volume.AllocBlock | src/filesystem.c:325-338 | bitmap bytes and counter afterwards represent the model with its lowest free block taken |
| FileSystem.Volume.FreeBlock | src/filesystem.c:343-355 | bitmap bytes and counter afterwards represent the model with that block given back |
| FileSystem.Volume.ReadFile | src/filesystem.c:603-648 | the read loop over cache and pointers returns what the model says |
| FileSystem.Volume.WriteFile | src/filesystem.c:653-715 | the write loop leaves the file system that the model says, for every position and amount of space |
| FileSystem.Volume.TruncateFile | src/filesystem.c:917-945 | truncation on cache and bitmap refines the model's, with the 32-bit block count of the code |
| FileSystem.Volume.EmptyFile | src/filesystem.c:560-570 | the truncation of `fs_open` on cache and bitmap refines the model's |
| FileSystem.Volume.FreeInode | src/filesystem.c:377-393 | freeing an inode on cache and bitmap refines the model's |
| FileSystem.Volume.AllocInode | src/filesystem.c:360-372 | the first free inode of the table, or the mark for none; of a table that runs into the data area the first free inode in front of it, while there is one |
| FileSystem.Volume.FindInDir | src/filesystem.c:440-468 | the search over blocks and entries finds what the model says |
| FileSystem.Volume.EditEntry | src/filesystem.c:814-832 | the scan that clears or renames the entry of an inode refines the model's |
| FileSystem.Volume.LinkEntry | src/filesystem.c:522-549 | adding an entry to the root, with its first block allocated if need be, refines the model's; for `fs_mkdir` an unsuccessful attempt does not save the root |
| Session.Mounted.Open | src/filesystem.c:473-581 | the lowest free handle is returned, at the end of the file when appending, and the file system is the model's after creation and truncation; -1 leaves the handles alone |
| Session.Mounted.Close | src/filesystem.c:586-598 | the handle is given back; the represented files do not change |
| Session.Mounted.Read | src/filesystem.c:603-648 | the model's bytes and a position advanced by their number, or refusal of a handle not open for reading |
| Session.Mounted.Write | src/filesystem.c:653-715 | file system, position and size are the model's after a write, and the number reported is the advance of the position |
| Session.Mounted.Seek | src/filesystem.c:720-752 | for a 32-bit offset the new position is max(0, base + offset) if and only if base + offset is below 2^31; -1 exactly for a bad handle |
| FsRuns.SeekMeans | src/filesystem.c:727-748 | the same as a law of the 32-bit sum |
| FsRuns.SeekReturns | src/filesystem.c:720-752 | seeking forward and back by the same offset returns to the same position |
| Session.Mounted.Truncate | src/filesystem.c:917-945 | the file system is the model's after a truncation and the handle knows the new size; refused exactly for a bad handle |
| Session.Mounted.Remove | src/filesystem.c:796-833 | the file system after a removal, which fails exactly when the name is not there |
| Session.Mounted.Rename | src/filesystem.c:950-989 | the file system after a renaming, which succeeds exactly when the old name is there and the new one is not |
| Session.Mounted.MakeDir | src/filesystem.c:994-1052 | the file system is the model's after `fs_mkdir`, the undoing of a failed one included, and the report is exactly that of `Directory.CreateReports` for a new name |
| Session.Mounted.RemoveDir | src/filesystem.c:1057-1103 | the file system is the model's after `fs_rmdir`, which succeeds exactly on an existing empty directory |
| FsRuns.AfterSane | src/filesystem.c:473-1103 | every call, successful or not, keeps the invariant |
| FsRuns.NoBlockShared | src/filesystem.c:325-393 | over every sequence of calls the blocks that inodes point to are pairwise different, lie in the data area and are marked, and the free counter is the number of clear data bits |
| FsRuns.FormatSane | src/filesystem.c:123-181 | a formatted file system satisfies the invariant, with an empty directory |
| DirRuns.AfterFollows | src/filesystem.c:473-1103 | with names that fit their field every call does to the directory exactly what its edit (add, drop, move or none) does to a map, failed calls and calls out of space included |
| DirRuns.DirectoryIsMap | src/filesystem.c:473-1103 | over every session with such names the names stay unique, the directory is the map the edits make of the one at the start, and only new names with unused inodes are added, only present ones dropped, and others moved to free names only |
| DirRuns.LookupAfter | src/filesystem.c:440-468 | from a fresh format on, a lookup finds exactly what the edits made of the empty map |
| FileLife.OpenFound | src/filesystem.c:473-581 | opening a name that is there changes nothing on the device without truncation; with it that file is empty and no other is touched; the handle is the first free one, on that inode, at the end when appending and else at 0 |
| FileLife.OpenNew | src/filesystem.c:503-581 | opening a new name with creation: an empty regular file with both times from the clock, its entry in the root if there is a place, a handle at 0, and all other files as before |
| FileLife.OpenFails | src/filesystem.c:473-581 | without a handle, or without the name and a new inode, nothing changes |
| FileLife.CloseMeans | src/filesystem.c:586-598 | closing gives back that handle and changes nothing else |
| FileLife.MakeDirMeans | src/filesystem.c:994-1052 | a directory that is made has that type in inode and entry and nothing in it, so that `fs_rmdir` would take it away; all other files are as before |
| FileLife.AfterSame | src/filesystem.c:473-1103 | every call leaves a file as it is that it does not write, truncate, remove or open for truncation |
| FileLife.FileKept | src/filesystem.c:473-1103 | over every session, failed calls and calls out of space included, such a file keeps its inode, its blocks and its contents |
| Cursors.MoveFollows | src/filesystem.c:603-945 | through a handle on a dense file with space, read, write, seek and truncation move a cursor over its bytes, and touch no other handle or file |
| Cursors.GetAnswers | src/filesystem.c:603-648 | a read returns exactly the bytes that the cursor passes over |
| Cursors.CursorRun | src/filesystem.c:603-945 | any sequence of such calls through one handle takes the cursor along a path of such moves |
| Cursors.AppendWrites | src/filesystem.c:570-581 | a write through a handle opened for appending puts its data behind what the file held |
| Mount.FormatIffClean | src/filesystem.c:145-181 | the blocks that `fs_format` writes represent a formatted, empty file system if and only if the inodes it does not write were blank |
| Mount.ErasedIsClean | src/filesystem.c:145-148 | a device that erases to a byte value is clean if and only if that is 0 or 0xFF, or one block holds all inodes |
| Mount.FormatAndMount | src/filesystem.c:123-218 | formatting and mounting a clean device gives a valid session with an empty directory, for tables that fit and for the 128 inodes of `fs_format`, of which the session follows the first 120 |
| Scheduler.EnqueueKeeps | src/kernel.c:75-93 | adding a task queues exactly that task, at the back of its own priority |
| Scheduler.RemovedKeeps | src/kernel.c:400-421 | removing a task unqueues exactly that task |
| Scheduler.PoppedKeeps | src/kernel.c:54-70 | the next task leaves its queue and everyone else stays |
| Scheduler.TickKeeps | src/kernel.c:103-142 | a tick changes no priority and never leaves the current task in a queue |
| Scheduler.ReselectedIffAlone | src/kernel.c:119-139 | at the end of a slice the running task is chosen again exactly when nobody else is as urgent |
| Scheduler.TickConserves | src/kernel.c:103-142 | a tick keeps the current task running and the ready tasks exactly the queued ones if and only if the slice goes on or another ready task is as urgent; otherwise the current task stays, marked ready and in no queue |
| Scheduler.MovedTidy | src/kernel.c:437-480 | a priority change moves a ready task to the queue of its new priority and leaves all other tasks where they are |
| KernelRuns.RunTidy | src/kernel.c:54-555 | in every reachable kernel each queued task is in one queue only, once, under its own priority, and is ready |
| KernelRuns.ChangeOutcome | src/kernel.c:437-555 | each priority operation changes nothing, or moves its task and yields exactly when the current task lowered itself or another became more urgent |
| KernelRuns.StepReprices | src/kernel.c:437-555 | which priorities an operation changes, and to what |
| KernelRuns.ChangeConserves | src/kernel.c:437-555 | a priority operation conserves tasks if and only if it does not make the current task yield to nobody as urgent |
| KernelRuns.OthersConserve | src/kernel.c:171-289 | creating, resuming and halting a task that is not current always conserve tasks |
| KernelRuns.HaltConserves | src/kernel.c:221-272 | deleting or suspending the current task conserves tasks, unless it suspends the idle task with nobody ready |
| RoundRobin.RingFrom | src/kernel.c:103-142 | the whole future of tasks that share the best priority, tick by tick |
| RoundRobin.RunsAt | src/kernel.c:103-142 | at every tick the running task is the one whose turn it is; turns last exactly one time slice and no less urgent task runs |
| RoundRobin.OneTurnEach | src/kernel.c:54-142 | fairness: of any k consecutive turns each of the k tasks has exactly one; it runs at every tick of that turn and at no tick of the others |
| RoundRobin.LostForever | src/kernel.c:103-142 | a task that is ready but unqueued and not current is never dispatched again by ticks |
| RoundRobin.LoneTaskIsLost | src/kernel.c:119-139 | a task alone at the best priority, with others waiting behind it, runs out its slice and one more and is then lost |
| Kernel.FirstMarked | src/kernel.c:54-70 | the first set bit of the first non-zero bitmap word is the most urgent non-empty queue |
| Kernel.Kernel.constructor | src/kernel.c:38-49 | the kernel as initialised and started, with the idle task alone |
| Kernel.Kernel.FirstReady | src/kernel.c:54-70 | the bitmap scan finds the numerically lowest non-empty priority |
| Kernel.Kernel.GetNextTask | src/kernel.c:54-70 | the head of that queue is unlinked and returned, or the idle task |
| Kernel.Kernel.AddReadyTask | src/kernel.c:75-93 | links, heads and bitmap after a task is appended to its queue |
| Kernel.Kernel.RemoveTask | src/kernel.c:400-421 | links, heads and bitmap after a task is unlinked from its queue |
| Kernel.Kernel.Tick | src/kernel.c:103-142 | a tick on the linked queues, heads and bitmap refines the value model |
| Kernel.Kernel.Yield | src/kernel.c:294-301 | a yield on the linked queues refines the value model |
| Kernel.Kernel.SetPriority | src/kernel.c:437-480 | setting a priority on the linked queues, heads and bitmap refines the value model, preemption included |
| Kernel.Kernel.RaisePriority | src/kernel.c:486-519 | raising a priority on the linked queues, heads and bitmap refines the value model, preemption included |
| Kernel.Kernel.ResetPriority | src/kernel.c:525-555 | resetting a priority on the linked queues, heads and bitmap refines the value model, preemption included |
| Kernel.Kernel.Create | src/kernel.c:171-216 | creation on the linked queues refines the value model, and is refused exactly when there are eight tasks |
| Kernel.Kernel.Suspend | src/kernel.c:252-272 | suspension on the linked queues refines the value model, a suspended current task giving way |
| Kernel.Kernel.Resume | src/kernel.c:277-289 | resumption on the linked queues refines the value model |
| Kernel.Kernel.Delete | src/kernel.c:221-247 | deletion on the linked queues refines the value model, refused exactly for the idle task; the 8-bit task count wraps |
| TaskLife.CreatedTask | src/kernel.c:171-216 | a new task has the priority asked for, is ready with ten ticks, waits at the back of that queue, and changes nothing else |
| TaskLife.CreatedRuns | src/kernel.c:103-142 | the next choice falls on the new task, with a full slice, if and only if no queue was as urgent and a running task was not more urgent |
| TaskLife.HaltParks | src/kernel.c:221-272 | suspending or deleting a task, itself included, stops it and lets another run |
| TaskLife.HaltedNeverRuns | src/kernel.c:221-289 | over every run that neither halts it again nor resumes it a suspended task never runs, and no resume brings a deleted one back |
| TaskLife.SuspendThenResume | src/kernel.c:252-289 | a suspended task that is resumed is ready again, with the priorities it had, behind its equals; nothing else changes |
| TaskLife.SuspendedElsewhere | src/kernel.c:252-289 | for a task that was not running the two only send it to the back of its queue |
| Inheritance.NextInv | src/sync.c:26-101 | every step of every task keeps the invariant |
| Inheritance.HandOver | src/sync.c:26-101 | a mutex is taken only when nobody has it, and given up only by its holder |
| Inheritance.MutualExclusion | src/sync.c:26-101 | over every interleaving no two tasks hold a mutex and no task is less urgent than its base priority |
| Inheritance.Inherits | src/sync.c:51-55 | after a failed attempt the owner stays at least as urgent as the waiter was, until it unlocks or its priority is set or reset |
| Inheritance.KeepsPriorityIff | src/sync.c:51-55 | over every run in which a task neither unlocks nor has its priority set or reset, it ends at the priority it started with if and only if no event boosted it |
| Inheritance.UnlockRestoresIff | src/sync.c:73-101 | after an unlock and any such run, the release anywhere in it, the former owner is at its base priority if and only if no event after the reset boosted it |
| Inheritance.LateBoostLingers | src/sync.c:88-93 | one attempt between the priority reset and the release of an unlock leaves the former owner boosted if and only if the waiter was more urgent than its base priority |
| Mutexes.Mutex.Attempt | src/sync.c:34-55 | one round of the lock loop on the kernel's own data structures |
| Mutexes.Mutex.StartUnlock | src/sync.c:73-89 | refusal of a task that is not the owner, or the priority reset |
| Mutexes.Mutex.FinishUnlock | src/sync.c:91-93 | the release |
| MsgQueue.SentItems | src/sync.c:227-231 | advancing the tail appends the item in its slot |
| MsgQueue.ReceivedItems | src/sync.c:329-333 | advancing the head drops the oldest item |
| MsgQueue.PutItems | src/sync.c:227-228 | writing into the tail slot of a ring that is not full changes no queued item |
| MsgQueue.Queue.Send | src/sync.c:205-247 | the item is appended, byte for byte, exactly when the ring is not full |
| MsgQueue.Queue.Receive | src/sync.c:307-349 | the oldest item is returned and removed exactly when there is one |
| MsgQueue.Queue.Peek | src/sync.c:253-287 | the oldest item is returned and stays |
| QueueRuns.BoundedFifo | src/sync.c:180-349 | over every interleaving of senders, receivers and peekers, byte copy by byte copy, items received followed by the ring are the items sent; the indices agree and the count is bounded |
| QueueRuns.DeliversOldest | src/sync.c:253-349 | a receive or peek that completes returns the oldest item not yet received |
| TimerList.RearmedNotDue | src/timer.c:234-268 | a re-armed timer is not due again at the same tick if and only if its period is in 1..2^31 |
| TimerList.ProcessExact | src/timer.c:226-276 | one pass over a sorted, orderly list fires exactly the timers that are due, each once, in list order, re-arms exactly those that reload, and leaves the others, sorted |
| TimerList.PassIffOrderly | src/timer.c:226-276 | for any list one pass fires a prefix of the due timers, and all of them if and only if they lead the list and none that reloads is re-armed, in unsigned order, in front of a later one |
| TimerList.NearIsOrderly | src/timer.c:234-268 | a sorted list with no expiry beyond half the tick range and no wrapping re-arm is orderly |
| TimerList.ProgressIffRunning | src/timer.c:234-268 | a round leaves fewer due timers if and only if the fired one is one-shot or has a period in 1..2^31 |
| TimerList.WrappedTimerHidesDue | src/timer.c:70-85 | a concrete list that is not orderly, because an expiry time has wrapped: a due timer does not fire |
| Timer.Manager.InsertSorted | src/timer.c:70-85 | the splice puts the timer behind all that expire no later and keeps the list linked |
| Timer.Manager.Start | src/timer.c:90-111 | the list and the timer after a start or restart |
| Timer.Manager.Stop | src/timer.c:116-151 | exactly that timer leaves the list |
| Timer.Manager.ChangePeriod | src/timer.c:188-209 | the timer is re-inserted under its new period if it was active; a zero period is refused |
| Timer.Manager.ProcessTimers | src/timer.c:226-276 | the in-place loop terminates, fires what the specification fires in that order, and leaves its list |
| TimerRuns.NextGood | src/timer.c:70-276 | every call, across wrap-around too, keeps the list sorted, without duplicates and with legal periods |
| TimerRuns.FiresOnTime | src/timer.c:90-276 | over every run whose passes find the list orderly, across wrap-around too, a running timer fires exactly at the first processing at which it is due, and so on from each firing if it reloads |
| TimerRuns.StartFiresOnTime | src/timer.c:90-111 | a timer started at t with period p fires as counted from t + p in 32 bits |
| TimerRuns.ExpectedSpacing | src/timer.c:261-268 | the first firing is due, a one-shot timer fires at most once, and each firing is due one period after the one before |
| TimerRuns.AbsentNeverFires | src/timer.c:116-151 | a timer that is not running never fires, over any run |
| TimerRuns.EarlyRunIsTimely | src/timer.c:226-276 | runs with a non-decreasing clock in the first half of the tick range find the list orderly at every pass |
| TimerRuns.EarlyExpected | src/timer.c:226-276 | in such runs the firing ticks are those of plain arithmetic: the first processing at the expiry or later, and so on one period from each firing |
| Coap.OptionHeadReadBack | src/coap.c:39-69 | an option header never looks like the payload marker, and its delta and length are read back |
| Coap.RoundTrip | src/coap.c:144-309 | decoding the encoding of any valid message gives it back (RFC 7252, sections 3 and 3.1), whatever memory follows the buffer |
| Coap.Reencoded | src/coap.c:144-309 | an accepted buffer re-encodes to itself if and only if it is canonical: no nibble 15, no overflowing extension, no empty payload after a marker |
| Coap.BeyondIrrelevant | src/coap.c:236-309 | the memory that a truncated option head makes the decoder read never influences the result |
| Coap.LoopIsTail | src/coap.c:267-308 | the decoder's loop computes the recursive definition |
| Coap.EmitOptions | src/coap.c:169-221 | the option loop writes exactly the encoded options, and fails exactly when they do not fit |
| Coap.PduEncode | src/coap.c:144-234 | the encoder writes the message and its length, or -1 exactly when it does not fit |
| Coap.PduDecode | src/coap.c:236-309 | the decoder returns what the definition says, errors included |
| Coap.PayloadFits | src/coap.c:272-281 | a decoded payload is at least five bytes shorter than its datagram |
| Coap.PayloadOverflows | src/coap.c:272-281 | every payload above 1152 bytes, more than the buffer holds, is accepted in a datagram five bytes longer |
| Coap.PayloadFitsIff | src/coap.c:272-281 | every message in a datagram of n bytes fits the decoder's payload buffer if and only if n is at most 1157 |
| CoapFormat.EncodedFormat | src/coap.c:144-234 | every byte of an encoded message by value (section 3 of RFC 7252): the header fields, the message identifier high byte first, the token, each option's nibbles and extensions, the payload behind its marker |
| CoapFormat.DecodedFormat | src/coap.c:236-309 | every accepted datagram is laid out that way as the message that is returned, with sums in 16 bits and the reserved nibble read as zero |
| Mqtt.LengthRoundTrip | src/mqtt.c:43-73 | decoding inverts encoding of the Remaining Length if and only if it is below 2^28 (MQTT 3.1.1, section 2.2.3) |
| Mqtt.PutLength | src/mqtt.c:43-54 | the loop writes exactly the encoded length |
| Mqtt.SendPublish | src/mqtt.c:266-303 | a PUBLISH packet whose declared length is the number of bytes that follow |
| Mqtt.SendSubscribe | src/mqtt.c:308-331 | the same for SUBSCRIBE |
| Mqtt.SendUnsubscribe | src/mqtt.c:336-358 | the same for UNSUBSCRIBE |
| Mqtt.SendConnect | src/mqtt.c:172-239 | the same for CONNECT, after the overlapping move of the body |
| Mqtt.StagingExact | src/mqtt.c:176-226 | the packet fits the buffer and its staging does not exactly for bodies of 1020 and 1021 bytes |
| Mqtt.LongConnect | src/mqtt.c:183-226 | there are such bodies: a client identifier of 1008 bytes and nothing optional |
| Mqtt.MoveDown | src/mqtt.c:232-236 | the overlapping move copies the bytes as they were |
| MqttFormat.LengthDigits | src/mqtt.c:43-54 | the Remaining Length field holds the digits to the base 128, the lowest first, all but the last marked |
| MqttFormat.PublishFlags | src/mqtt.c:272-277 | type, quality of service and retain flag in the first byte of PUBLISH |
| MqttFormat.PublishRead | src/mqtt.c:266-303 | a receiver that follows section 3.3 of MQTT 3.1.1 reads topic, identifier and payload as they were sent |
| MqttFormat.SubscribeRead | src/mqtt.c:308-331 | a receiver that follows section 3.8 reads identifier, topic and quality of service as they were sent |
| MqttFormat.UnsubscribeRead | src/mqtt.c:336-358 | the same for section 3.10 |
| MqttFormat.ConnectFlagBits | src/mqtt.c:189-199 | every flag of CONNECT is in its bit (section 3.1.2.3) |
| MqttFormat.ConnectRead | src/mqtt.c:172-239 | a receiver that follows section 3.1 reads back the whole configuration, and no byte is left over |
| MqttReceive.FrameParses | src/mqtt.c:120-167 | a frame at the front of a stream is the packet parsed from it |
| MqttReceive.FramesRecovered | src/mqtt.c:752-791 | repeated reception recovers every frame of a concatenation: after k packets have been taken off, the next one is message k, with the rest of the stream behind it |
| MqttReceive.SeenIff | src/mqtt.c:140-163 | every handler finds the body of its own packet in the buffer if and only if no packet with an empty body follows one with bytes in it; otherwise it is given the bytes of the packet before |
| MqttReceive.DecodeRemainingLength | src/mqtt.c:59-73 | the decoding loop computes the definition |
| MqttReceive.Receiver.ReceivePacket | src/mqtt.c:120-167 | for every way the stream is cut into pieces, success takes exactly one packet off it and leaves its body in the buffer; an empty body leaves the buffer and its position as they were |
| MqttReceive.PublishDelivered | src/mqtt.c:384-421 | a published message is delivered with its topic, if short enough, and with its payload unchanged if and only if it was sent at QoS 0 |
| Checksum.FoldIsOnesSum | src/net/network.c:277-298 | accumulating in 32 bits and folding is the ones'-complement sum of the words (RFC 1071, sections 1 and 2) |
| Checksum.FoldIsResidue | src/net/network.c:292-295 | the fold is the residue modulo 65535, with 65535 for the non-zero multiples |
| Checksum.SumOfPermutation | src/net/network.c:277-298 | the sum does not depend on the order of the words |
| Checksum.WordAt | src/net/network.c:277-298 | word i is made of bytes 2i and 2i + 1, the low one first, and a zero stands behind an odd last byte |
| Checksum.OddIsPadded | src/net/network.c:287-290 | a buffer of odd length has the checksum of the buffer with a zero behind it |
| Checksum.SwapSum | src/net/network.c:277-298 | exchanging the bytes of every word exchanges those of the sum, so the stored bytes do not depend on the byte order (RFC 1071, section 2) |
| Checksum.StoredChecksum | src/net/ip.c:257-265 | with the checksum field zeroed first, as in the header check, the whole buffer sums to all ones exactly for the computed checksum, or for all ones where that is zero |
| Checksum.AcceptedIff | src/net/ip.c:257-265 | the header check accepts exactly the headers that sum to all ones, except those that store all ones for a checksum of zero |
| Checksum.NetChecksum | src/net/network.c:277-298 | the loops compute the complement of the folded sum, and the accumulator never exceeds 32 bits |

## Left out

- `flash_init`, which fills the simulated flash, and the other convenience calls of the flash driver: flash survives reset here.
- `ota_start_update` from a URL, progress reports and callbacks, version comparison, signature checks: input, output or stubs.
- BootSafety.NeverBricked: assumes disciplined callers, which `BootSafety.SelectionSafeIff` shows to be necessary for selections, and that each flash call is atomic.
- BootSafety.CallSafe: assumes the same of the flash, and no 32-bit wrap in a chunk write.
- BootSystem.AlwaysBoots: assumes a record that is unreadable or sane and no image header in the bootloader's partition; `BootSafety.BootsIff` covers the rest.
- BootSystem.CallOutcome: assumes the same; `BootSafety.CallSafe` does not.
- BootSystem.NextKeepsInv: assumes the same; `BootSafety.NeverBricked` does not.
- BootSystem.StaysBootable: assumes the same, because from other records a boot need not complete.
- TrialBoots.TrialIsBounded: excludes cuts inside a save with APP_A on trial, where `TrialBoots.TornBoot` shows it false, and library calls that save the record.
- The checksum of the boot record is written and never checked by the source; only its value is proved (`Ota.SavedChecksum`).
- `ota_mark_partition_valid` and `ota_mark_partition_invalid`: they change no persistent state.
- Unmounting and mounting again: the cache is not invalidated and the superblock counters are not written back, so the model stays in one session.
- The on-disk copy of the bitmap, `fs_stat`, the statistics calls and the free inode counter.
- Cursors.CursorRun: the sequences of `FileRuns.ContentsLaw`, through one handle; a file that others write at the same time is covered by the single-call laws only.
- Subdirectory contents: the source looks names up in the root directory only.
- Two tasks inside the file system at once: calls are modelled as atomic, as its locks intend.
- FileRuns.ContentsLaw: sequences that write at or before the end and never lengthen by truncation, on a file with free blocks for all it may still take; outside that the single-call laws of `FileLaws` apply.
- FsRuns.NoBlockShared: speaks of the inodes that lie below the data area, with the layout of `fs_format` the first 120; writing one of the last eight breaks it (`Inodes.InodePastTable`).
- Mount.FormatAndMount: assumes a clean device.
- Session.Mounted.Open: with a table that runs into the data area, creating a file assumes a free inode below it.
- Session.Mounted.MakeDir: assumes the same.
- DirList.NextEntry: assumes that the directory's pointers do not hold the out-of-space mark; the source would list what its buffer held before.
- Kernel.Kernel.constructor: does not model tasks created before `os_start`, among which the first one to run would be chosen.
- Open flags are five booleans instead of the bits of a word.
- Kernel.Kernel.Create: does not model re-creating a control block that is in use, because the source clears it while it may be queued.
- The priority ceiling field of a mutex, on which nothing else in the source depends, and the timeouts of lock, send and receive: a call may give up between any two attempts.
- QueueRuns.BoundedFifo: the queue's lock is a flag that one task at a time holds; the priorities of the tasks that wait for it are those of `Inheritance`, which is not composed with it.
- Stacks, context switches, run-time counters and CPU usage.
- Semaphores, event groups, condition variables, task delays and the heap.
- Timer.Manager.ProcessTimers: reloading timers have periods in 1..2^31, because otherwise the loop makes no progress (`TimerList.ProgressIffRunning`); callbacks do not call the timer interface.
- TimerRuns.FiresOnTime: assumes that every pass finds the list orderly, which `TimerList.PassIffOrderly` shows to be exactly when the pass is right.
- `os_timer_get_remaining_ms`, `os_timer_delete` and the reading of the timer counter.
- Mqtt.SendConnect: assumes that the body fits behind the five bytes it is staged after, which the source does not check; the model does not write past the buffer.
- Mqtt.SendPublish: assumes that the packet fits into the buffer, which the source does not check.
- Mqtt.SendSubscribe: assumes the same.
- Mqtt.SendUnsubscribe: assumes the same.
- MqttFormat.ConnectRead: wills of QoS 0 to 3; a larger value would be sent modulo 4.
- Coap.PduEncode: messages with at most the options, token and lengths that the source's structure can hold.
- Coap.PduDecode: does not model the copy of the payload past the end of the decoder's buffer; `Coap.PayloadFitsIff` says when there is none. The payload length is not cut to 16 bits.
- CoAP requests, retransmission, resources and observation; MQTT keep-alive, acknowledgements and topic matching; sockets, DNS, HTTP and drivers.
