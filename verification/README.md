# InferenceOS storage, window and device-queue model

A Dafny model of the parts of InferenceOS whose correctness takes an argument.

The main part is the InferenceOS-FS storage stack. `BlockDevice` is a disk whose writes can be lost or torn between
barriers; `BlockCache` and `Sync` are the write-back cache and its generations. `FatChain`, `FatTable`, `FatValidate`
and `RootValidator` are the cluster table and the four checkers of its chains. `Records`, `Superblock`,
`RegistryRecord` and `Crc32` are the on-disk records, `Documented` the tables and worked examples of their
documentation, and `CrcDivision` says what the checksum is. `Directory`, `DirectoryLayout`, `DirectoryChange` and
`DirectoryState` are the scan of a directory, what can be scanned, and what each operation does to it. `CrashSafety`,
`CommitSteps`, `Quiescence`, `ServiceSteps`, `ContentSteps` and `Lookup` hold the invariant of the save protocol and
the facts about its steps, `CutDirectory` what a directory lists after a power cut, `Runs` what requests may do, alone
and one after the other, `Refusals` the one answer that each request calls for as long as the storage below does its
part, and `Leaks` which clusters are in use for nothing, with `Status.Below` the reasons that the storage below can
have; `FileService` is the service itself, with the writes and barriers in the order of the source, and `FreshVolume`
starts it on a formatted device. `FileIo` is byte access through open files, `VolumeGeometry`, `Formatter` and `Mount`
make and recognise volumes, and `Registry` is the extension hint.

Beside it stand the window system (`Scene`, `WindowManager`, `Primitives`, `Line`), the Hyper-V packet ring
(`RingBytes`, `Ring`, and `RingProtocol` for its interleavings), the virtio block driver (`VirtioQueue`, `Virtio`,
`CapabilityList`) and path normalization (`Path`). `Bytes`, `Collections`, `Status` and `Layout` are shared.

The crash model: a sector write is atomic, the cache sends nothing to the device before a barrier, and a power cut
during a barrier leaves any mixture of old and new sectors. The device keeps, as ghost state, every image that a power
cut could have left at any moment, those since the start of the current operation apart from the earlier ones; the
theorems about operations and runs quantify over all of them. It also counts its failed transfers, so that no
component can report an I/O error that did not happen.

Code that changes state is modelled by classes and methods over arrays and fields, each proved against functions and
predicates on values; the theorems are lemmas about those, and the contracts of the methods.

## Model

| member | source | states |
|---|---|---|
| `FileService.Service.Run` | src/filesystems/inferenceos_fs/file_service.c:867-1311 | Over any sequence of create, replace, append, delete and rename requests, served, refused or failing on device errors: the device's history of images that a power cut could have left grows by exactly the images of the steps, and each step is a safe answer to its request: every image is sound, the file asked for is old, new or absent in it, every other file keeps its name, record, chain and content, and success means the device shows what was asked. An answer of the storage below has its reason there: a transfer that failed during the request, a cache with no entry to spare, the last generation, or a device that takes no writes. If nothing was pending and no step got such an answer, each result is exactly `Refusals.Answer` of the volume at that moment, refusals write nothing (but see Delete below), and a served request leaves none of its clusters behind |
| `FileService.Service.Perform` | src/filesystems/inferenceos_fs/file_service.c:867-1311 | The same for one request of any kind: the operation is the one asked for, or the request failed and nothing was written; its images are those the device recorded; the result is exactly the answer that directory, file and table call for, unless the storage below gave up and had reason to; after success the target shows exactly what was asked and the listing has changed by its own entry |
| `FileService.Service.constructor` | src/filesystems/inferenceos_fs/file_service.c:770-819 | Any sound image, in particular any that a power cut left, can be taken over; the service then has the volume's table in memory with nothing pending, unless the first three entries are not end marks, a transfer failed, or the cache had no entry to spare |
| `FileService.Service.Start` | src/filesystems/inferenceos_fs/file_service.c:770-819 | The same for a service that has not started; it comes up exactly for a table whose first three entries are end marks, unless loading it failed below |
| `FileService.Service.Create` | src/filesystems/inferenceos_fs/file_service.c:867-904 | The operation is a create in a free pair of that directory, or nothing is written; on success the device holds the new empty file, and a tidy directory stays tidy and gains exactly its entry, no other cluster changing; at every crash point before, the pair reads as nothing or as the new file; apart from faults below, refused exactly as `Refusals.CreateAnswer` says, without a write |
| `FileService.Service.SaveContent` | src/filesystems/inferenceos_fs/file_service.c:931-1007 | Replace and append are crash-atomic: every image shows the old file, the new file or no file at the pair that the request names, and all other files whole; success means the device holds the input, or the old bytes followed by the input, and the old clusters are free again; unless the storage below fails the answer is exactly that of `Refusals.SaveAnswer`, which `Refusals.SaveAnswers` spells out, and a refusal writes nothing |
| `FileService.Service.SaveSized` | src/filesystems/inferenceos_fs/file_service.c:957-1007 | Once the old chain is listed and the sizes are known, a save succeeds exactly when so many clusters are free beside the old ones, and otherwise leaves volume and table as they were |
| `FileService.Service.Delete` | src/filesystems/inferenceos_fs/file_service.c:1271-1298 | On success the named pair holds no file, its clusters are free, and a tidy directory stays tidy and loses exactly that entry; at every crash point the file is whole or gone, and its clusters are not free while it is visible; a file with more clusters than the service can list is deleted all the same, keeps its clusters in use and yields the error of the walk |
| `FileService.Service.Rename` | src/filesystems/inferenceos_fs/file_service.c:1160-1199 | Within its directory cluster a rename of the named file keeps the content and the clusters, and a tidy directory stays tidy and has exactly one entry changed; at every crash point the pair shows the old name, the new name or nothing; apart from faults below it is refused exactly when another entry has the new base name, without a write |
| `FileService.Service.ReadContent` | src/filesystems/inferenceos_fs/file_service.c:1049-1101 | Unless the storage below fails: the error of looking the file up if it is not found; else out of range exactly behind the end of its content, no space exactly for a chain of more than 256 clusters, and otherwise OK with exactly the stretch that starts at the offset, cut to the capacity, complete exactly when the end is reached; nothing is written |
| `FileService.Service.Commit` | src/filesystems/inferenceos_fs/file_service.c:688-712 | Uncommit, table, publish: after success the device has the new committed pair, and after a failure nothing visible has been lost |
| `FileService.Service.Prepare` | src/filesystems/inferenceos_fs/file_service.c:688-703 | Before the commit point the pair is hidden by an uncommitted companion and the new chain is durable while the old file still stands |
| `FileService.Service.Publish` | src/filesystems/inferenceos_fs/file_service.c:703-712 | New primary and committed companion go out in one barrier; whichever of the two survives a cut, the pair reads old, new or nothing |
| `FileService.Service.Uncommit` | src/filesystems/inferenceos_fs/file_service.c:607-627 | The visibility fence: after its barrier no reader of any later image sees the pair until it is published |
| `FileService.Service.PersistFat` | src/filesystems/inferenceos_fs/file_service.c:562-580 | Table sectors of changed entries reach the volume and no record, content byte or unchanged entry does |
| `FileService.Service.PersistSlot` | src/filesystems/inferenceos_fs/file_service.c:582-605 | Replaces the 32 bytes of one slot and nothing else of the volume |
| `FileService.Service.AllocateChain` | src/filesystems/inferenceos_fs/file_service.c:646-662 | Allocation happens in memory only: its clusters belong to no file of any image that a cut could leave, and a failure leaves the table as it was |
| `FileService.Service.ReleaseChain` | src/filesystems/inferenceos_fs/file_service.c:664-686 | Clusters go back only when no surviving record needs them; records and file content are untouched |
| `FileService.Service.WriteContent` | src/filesystems/inferenceos_fs/file_service.c:972-1000 | Old content with the input laid over it is durable in the new chain, while the old file still stands in every image |
| `FileService.Service.SwapFile` | src/filesystems/inferenceos_fs/file_service.c:1000-1007 | The commit of a save and the return of the old clusters: only the file's own pair changes |
| `FileService.Service.FindFileSlots` | src/filesystems/inferenceos_fs/file_service.c:714-743 | The first free slot pair of the first directory cluster that has one: no earlier cluster of the chain has two free neighbouring slots |
| `FileService.Service.Search` | src/filesystems/inferenceos_fs/file_service.c:331-416 | Finds an entry that the query names in some cluster of the directory, or shows that every cluster scans and none has one |
| `FileService.Service.LocateObject` | src/filesystems/inferenceos_fs/file_service.c:418-484 | For every object identity, whatever its cluster holds: exactly the file whose primary record the scan of that cluster meets in that slot, none when the scan succeeds without it, and otherwise the error of the scan, unless the storage below fails |
| `FileService.Service.LoadFat` | src/filesystems/inferenceos_fs/file_service.c:130-142 | Memory's table becomes the volume's; only a failed transfer or a cache with no entry to spare stops it, and then each entry is either |
| `Runs.AtomicIsSafe` | src/filesystems/inferenceos_fs/file_service.c:688-712 | Atomic images are safe images: no dangling pair and no shared cluster in any of them |
| `Runs.RunStaysTidy` | src/filesystems/inferenceos_fs/file_service.c:385-416 | A run on a volume with any number of directories, in which every request is served or refused before a write: in no directory do two entries, in whatever clusters, ever share a base name, unused slots stay last, each served request changes the listings by exactly its own entry, and the directories keep their clusters on the device |
| `Runs.StepStaysTidy` | src/filesystems/inferenceos_fs/file_service.c:867-1199 | One served request of any kind keeps every directory of the volume tidy, the ones it has nothing to do with included, and changes exactly its own entry |
| `Runs.DirectoriesStay` | src/filesystems/inferenceos_fs/file_service.c:867-1311 | Whatever a request comes to, the device's table gives the same directories afterwards |
| `Runs.FoundServes` | src/filesystems/inferenceos_fs/file_service.c:418-484 | The operation on the file that a lookup found is the one that the request asks for |
| `Runs.DirChainInTable` | src/filesystems/inferenceos_fs/file_service.c:130-152 | A directory has the same chain in memory as on the volume, whatever is pending |
| `Refusals.CreateAnswers` | src/filesystems/inferenceos_fs/file_service.c:867-904 | In a directory that can be scanned, a create is refused as existing exactly when some entry has the eight base bytes, and for lack of space exactly when none has them and no cluster of the directory has two free neighbouring slots |
| `Refusals.LocateAnswers` | src/filesystems/inferenceos_fs/file_service.c:331-416 | A name is not found exactly when no entry of the directory has it, and what is found is an entry of that name |
| `Refusals.FileAnswers` | src/filesystems/inferenceos_fs/file_service.c:331-416 | Looked up by name for an operation on a file: not found exactly when no entry has the name, an invalid argument exactly when a directory has it, and otherwise a regular file of that name |
| `Refusals.ObjectAnswers` | src/filesystems/inferenceos_fs/file_service.c:418-484 | Looked up by its place: an invalid argument exactly for an impossible place, the error of the scan exactly when the cluster cannot be scanned, not found exactly when no regular file's primary lies in the slot, and otherwise that file |
| `Refusals.SearchFails` | src/filesystems/inferenceos_fs/file_service.c:331-416 | A search fails exactly at the first cluster that cannot be scanned when no cluster before it has a hit |
| `Refusals.SaveAnswers` | src/filesystems/inferenceos_fs/file_service.c:957-971 | To replace or extend a sound file is granted exactly when its chain has at most 256 clusters and the new content fits into at most 256 different free clusters of 4096 bytes; the only other answer is no space |
| `Refusals.DeleteAnswers` | src/filesystems/inferenceos_fs/file_service.c:1271-1298 | A sound file, an empty one included, is deleted exactly when its chain has at most 256 clusters; the only other answer is no space |
| `Refusals.FileChainAnswers` | src/filesystems/inferenceos_fs/file_service.c:629-644 | The chain of a sound file is listed exactly when it has at most 256 clusters |
| `Refusals.AnswerIsOwn` | src/filesystems/inferenceos_fs/file_service.c:867-1311 | No answer that directory, file or table calls for is one that the storage below gives, so the two can be told apart |
| `ContentSteps.OldFileExists` | src/filesystems/inferenceos_fs/file_service.c:629-644 | Between operations every file that a look-up meets is sound: a chain backs its record and carries the content that the device shows |
| `Refusals.RenameAnswers` | src/filesystems/inferenceos_fs/file_service.c:1160-1199 | A rename is refused exactly when it gives another name and an entry other than the file itself has the new base name; keeping the own name is always granted |
| `Leaks.NothingLeaks` | src/filesystems/inferenceos_fs/file_service.c:664-686 | If before a request that is served every cluster in use belongs to a directory or to a file, so it is afterwards |
| `Leaks.StepAccounted` | src/filesystems/inferenceos_fs/file_service.c:867-1311 | One request with no fault below: nothing is lost, no file outgrows what can be listed, and a refusal leaves the volume alone |
| `Leaks.NothingLeaksInRuns` | src/filesystems/inferenceos_fs/file_service.c:867-1311 | In a run with no fault below that starts with every cluster accounted for, no cluster is ever lost and every refusal leaves the volume alone |
| `Leaks.FaultlessIsUnfailing` | src/filesystems/inferenceos_fs/file_service.c:867-1311 | A run during which no transfer failed, the cache had room, generations were left and the device took writes has no answer from below at all |
| `FreshVolume.FormatAndServe` | src/filesystems/inferenceos_fs/formatter.c:78-123 | Formatting any device, taking the volume over and serving any requests on its root is a run from an empty tidy root with every cluster accounted for, the final image is sound, only a failed transfer keeps the service down, every answer from below has its reason there, and without one every result is exactly the answer called for |
| `FreshVolume.FreshRunStaysTidy` | src/filesystems/inferenceos_fs/file_service.c:385-416 | In every run on a fresh format in which each request is served or refused before a write, no two entries of the root share the 8-byte base, all slots after the first unused one are unused, and scanning after a create gives the old entries plus exactly the new one |
| `FreshVolume.FreshRunIsExact` | src/filesystems/inferenceos_fs/file_service.c:867-1311 | With no fault below, every request on a fresh format gets exactly its answer, every refusal leaves the volume alone, the root stays tidy, and each cluster in use belongs to the root or to a file at all times |
| `CutDirectory.CutLists` | src/filesystems/inferenceos_fs/directory.c:62-127 | Every image that a power cut during an operation can leave lists, in the cluster worked on, all other entries and the file as its surviving records give it, or cannot be scanned; it can be scanned exactly when the two records are a pair under a name of its own, or both out of the way |
| `CutDirectory.CutScan` | src/filesystems/inferenceos_fs/directory.c:62-127 | The same for one cluster's slots and any two records that an operation may leave in them |
| `Directory.ScanExact` | src/filesystems/inferenceos_fs/directory.c:62-127 | A scan succeeds exactly when every record on the way is sound and no name comes twice |
| `Directory.ScanErrors` | src/filesystems/inferenceos_fs/directory.c:62-127 | A scan that fails reports an unsound record or a name that comes twice |
| `DirectoryLayout.LaidScans` | src/filesystems/inferenceos_fs/directory.c:62-127 | The round trip for whole clusters: files, subdirectories, dot entries and deleted slots, laid one behind the other by their encodings up to an end mark, scan to exactly their entries, with kinds and slots; a name that comes twice is reported as such |
| `DirectoryLayout.ScansAreLaid` | src/filesystems/inferenceos_fs/directory.c:62-127 | And the other way round: a cluster scans exactly when it is such a layout of sound pieces with names apart |
| `DirectoryLayout.PairCanonical` | src/filesystems/inferenceos_fs/records.c:264-290 | Two records that are taken for a file are the committed companion and the primary of that file, byte for byte |
| `CrashSafety.SoundMeansNoDanglingNoSharing` | src/filesystems/inferenceos_fs/file_service.c:664-712 | In a sound image no valid pair reaches a free cluster, none is damaged, and no two share a cluster |
| `CrashSafety.CutIsGuarded` | src/block/cache.c:130-169 | The invariant survives a power cut: any sector-wise mixture of device and cache satisfies it again by itself |
| `CrashSafety.PairIsCovered` | src/filesystems/inferenceos_fs/file_service.c:607-712 | Whatever mixture of old and new companion and primary a cut leaves, a pair that reads is backed by clusters reserved for it |
| `CommitSteps.CutIsAtomic` | src/filesystems/inferenceos_fs/file_service.c:688-712 | At any moment of an operation's progress a cut leaves the target old, new or blank, and every other file with the name, record, chain and content that it had |
| `CommitSteps.OtherIsBacked` | src/filesystems/inferenceos_fs/file_service.c:688-712 | In what a cut leaves, the same chain backs every other file as at the start |
| `CommitSteps.PrimaryWrite` | src/filesystems/inferenceos_fs/file_service.c:688-703 | Overwriting the primary behind the fence keeps the progress invariant |
| `CommitSteps.CompanionWrite` | src/filesystems/inferenceos_fs/file_service.c:607-620 | Overwriting the companion keeps the progress invariant |
| `CommitSteps.TableWrite` | src/filesystems/inferenceos_fs/file_service.c:562-580 | Writing a table sector keeps every claimed entry the same on device and in cache |
| `CommitSteps.DataWrite` | src/filesystems/inferenceos_fs/file_service.c:972-1000 | Writing a cluster that nothing claims is invisible in every image |
| `CommitSteps.TableChange` | src/filesystems/inferenceos_fs/file_service.c:646-686 | Entries of unclaimed clusters may change in memory at any time |
| `CommitSteps.BarrierDone` | src/filesystems/inferenceos_fs/file_service.c:622-627 | After a successful barrier device and clients agree, and the invariant holds of the device alone |
| `ServiceSteps.CommittedShowsOldOrNew` | src/filesystems/inferenceos_fs/file_service.c:703-712 | With only the committed companion out, the pair reads as the old file, the new file or nothing |
| `ServiceSteps.FenceHides` | src/filesystems/inferenceos_fs/file_service.c:688-700 | Behind an uncommitted companion any primary may be written: the pair reads as nothing |
| `ServiceSteps.StoppedInDelete` | src/filesystems/inferenceos_fs/file_service.c:1135-1158 | A delete that stops with one of its two records marked has made its directory unscannable, so no later operation can act on the half state |
| `Quiescence.HalfWrittenPairJams` | src/filesystems/inferenceos_fs/file_service.c:688-712 | The same for a save or create that stops half way |
| `ServiceSteps.TakeOver` | src/filesystems/inferenceos_fs/file_service.c:770-819 | A sound image taken over as it is, is a state between operations |
| `ContentSteps.PublishedShows` | src/filesystems/inferenceos_fs/file_service.c:688-712 | The published record shows exactly the content that its chain carries |
| `ContentSteps.ContentLanded` | src/filesystems/inferenceos_fs/file_service.c:972-1000 | One more cluster of the new chain is written and the old file still stands |
| `ContentSteps.StandsKept` | src/filesystems/inferenceos_fs/file_service.c:931-1007 | The old file stands through every change of unclaimed entries and unclaimed clusters |
| `Lookup.OperationBegins` | src/filesystems/inferenceos_fs/file_service.c:418-484 | What a lookup found between operations is a sound place for an operation to start |
| `Lookup.FoundPair` | src/filesystems/inferenceos_fs/file_service.c:418-484 | An entry of the scan stands for the pair of records right where the scan met it |
| `DirectoryState.CreateKeepsTidy` | src/filesystems/inferenceos_fs/file_service.c:385-416 | A create after a successful search for the base name keeps all base names of the directory apart and its unused tail zero, over all its clusters |
| `DirectoryState.ReplaceKeepsTidy` | src/filesystems/inferenceos_fs/file_service.c:1160-1199 | A save or rename changes one entry of a tidy directory and leaves it tidy |
| `DirectoryState.DeleteKeepsTidy` | src/filesystems/inferenceos_fs/file_service.c:1135-1158 | A delete removes one entry of a tidy directory and leaves it tidy |
| `DirectoryState.PrimarySlotsDiffer` | src/filesystems/inferenceos_fs/directory.c:62-127 | No other entry lies where a pair's primary record lies |
| `Directory.ComputeScan` | src/filesystems/inferenceos_fs/directory.c:62-127 | The loop with its three record kinds and its duplicate test computes the scan that all directory facts are about |
| `Directory.FindPairSlots` | src/filesystems/inferenceos_fs/directory.c:134-159 | The lowest two neighbouring free slots, or none exist |
| `Directory.WalkIsScan` | src/filesystems/inferenceos_fs/directory.c:62-127 | A sound walk without duplicate names is a successful scan |
| `Directory.UnsoundFails` | src/filesystems/inferenceos_fs/directory.c:62-127 | One unsound record on the way makes the whole scan fail |
| `DirectoryChange.CreateScans` | src/filesystems/inferenceos_fs/directory.c:62-127 | Scanning after a create reports the old entries plus exactly the new one, and base names stay distinct |
| `DirectoryChange.ReplaceScans` | src/filesystems/inferenceos_fs/directory.c:62-127 | Scanning after a save or rename reports the same entries but for the one changed |
| `DirectoryChange.DeleteScans` | src/filesystems/inferenceos_fs/directory.c:62-127 | Scanning after a delete reports the same entries without the deleted one |
| `BlockCache.Cache.AcquireEntry` | src/block/cache.c:27-56 | A hit is marked as used, a miss takes the place of the one victim, a failed load leaves that place empty, and nothing else changes in the table; no room exactly when the sector is not held and every entry is pinned or unsaved, an I/O error exactly when the device's transfer failed; clients read the same map throughout and no unsaved data is dropped |
| `BlockCache.Cache.SelectVictim` | src/block/cache.c:14-25 | An empty entry, else the least recently used clean one; never an unsaved or pinned one; none only if none is evictable |
| `BlockCache.NoneEvictableMeans` | src/block/cache.c:14-25 | There is no room exactly when every entry is pinned, dirty or in error |
| `BlockCache.VictimMeans` | src/block/cache.c:14-25 | The victim is an unpinned empty entry, or where there is none the unpinned clean one used longest ago |
| `BlockCache.Cache.Read` | src/block/cache.c:73-82 | Reads return the flat sector map; they fail exactly outside the device, for lack of an entry to evict, or when the transfer fails |
| `BlockCache.Cache.Write` | src/block/cache.c:84-98 | A write replaces one sector of the flat map; it is refused exactly for a generation out of bounds, a read-only device, a sector outside it, or lack of an entry to evict, and then changes nothing |
| `BlockCache.Cache.Barrier` | src/block/cache.c:130-169 | Success for generation g leaves nothing unsaved of generation g or below, and for the current one the device equals the map; it fails exactly for a generation out of bounds, for something to save on a read-only device, or when a transfer fails, and then loses nothing; during it the device holds old or new of each sector |
| `BlockCache.Cache.Pin` | src/block/cache.c:100-110 | One more pin on the sector's entry and on no other, or the exact reason why not; nothing that clients read changes |
| `BlockCache.Cache.Unpin` | src/block/cache.c:112-120 | Succeeds exactly when a pinned entry holds the sector, takes one pin off that entry, and changes nothing else |
| `BlockCache.Cache.AdvanceGeneration` | src/block/cache.c:122-128 | The generation grows by one and stops at the 64-bit limit |
| `BlockCache.Cache.Invalidate` | src/block/cache.c:171-176 | Clients see the device again: exactly the writes that were never saved can be lost |
| `BlockCache.InstallKeeps` | src/block/cache.c:27-56 | Replacing an entry with nothing to save keeps the map |
| `Sync.SyncLayer.WriteSector` | src/filesystems/inferenceos_fs/sync.c:18-34 | A write replaces one sector for clients and marks its component; it is refused exactly for a read-only device, a sector outside it, or a cache with no entry to spare, and the refusal is remembered |
| `Sync.SyncLayer.Barrier` | src/filesystems/inferenceos_fs/sync.c:36-57 | Success means the device durably holds every sector as clients see it; it fails exactly at the last generation, for something to save on a read-only device, or when a transfer fails |
| `Sync.SyncLayer.DurableResult` | src/filesystems/inferenceos_fs/sync.c:83-88 | OK, exactly when nothing is marked and no failure remembered, means that the device equals the logical map and a power cut can leave no other image |
| `FatTable.Traverse` | src/filesystems/inferenceos_fs/fat.c:50-85 | Succeeds exactly when the start has a well-formed chain that fits the buffer, and returns it; otherwise the error is exactly that of the bad entry, of the loop, or of the buffer, whichever the walk meets; the final corruption return is unreachable |
| `FatTable.Allocate` | src/filesystems/inferenceos_fs/fat.c:87-111 | First fit and all or nothing: the lowest free clusters, linked, or the table unchanged; succeeds exactly when enough are free |
| `FatTable.Free` | src/filesystems/inferenceos_fs/fat.c:113-128 | Succeeds exactly on a well-formed chain that fits, and frees exactly its clusters; otherwise the error of the walk, and nothing changes |
| `FatTable.FaultDecides` | src/filesystems/inferenceos_fs/fat.c:50-85 | A start has at most one bad entry on its walk, and that one decides the error |
| `FatTable.LoopDecides` | src/filesystems/inferenceos_fs/fat.c:50-85 | A walk that comes back to a cluster meets no bad entry, and is corrupt if the buffer does not run out first |
| `FatChain.LinkedIsChain` | src/filesystems/inferenceos_fs/fat.c:87-111 | Linking free clusters gives exactly that chain, which traversal then returns |
| `FatChain.AllocationPreservesChains` | src/filesystems/inferenceos_fs/fat.c:87-111 | Every existing chain survives an allocation and is disjoint from the new one |
| `FatChain.ReleaseUndoesAllocation` | src/filesystems/inferenceos_fs/fat.c:87-128 | Free after allocate restores the table bit for bit |
| `FatChain.AllocationConsumes` | src/filesystems/inferenceos_fs/fat.c:87-111 | An allocation takes exactly the requested number of free clusters: free space is conserved |
| `FatChain.ChainUnique` | src/filesystems/inferenceos_fs/fat.c:50-85 | A start cluster has at most one chain |
| `FatChain.DistinctFits` | src/filesystems/inferenceos_fs/fat.c:50-85 | Pigeonhole: a repetition-free chain has at most n - 2 clusters |
| `FatChain.EndingPathIsChain` | src/filesystems/inferenceos_fs/fat.c:50-85 | A walk that reaches an end mark never met a cluster twice |
| `FatChain.LongPathMeansNoChain` | src/filesystems/inferenceos_fs/validator.c:140-184 | A walk longer than the table has no end |
| `FatValidate.ValidateOwnership` | src/filesystems/inferenceos_fs/fat.c:130-164 | Succeeds exactly when all starts have pairwise disjoint chains, and then the owner map shows them |
| `FatValidate.ValidateFileCapacity` | src/filesystems/inferenceos_fs/fat.c:166-193 | Succeeds exactly when the file's chain is well formed and long enough for its size, or empty file and no cluster |
| `FatValidate.NotOwned` | src/filesystems/inferenceos_fs/fat.c:130-164 | If one owner's walk fails against the map, no family of disjoint chains exists |
| `RootValidator.ValidateRootChain` | src/filesystems/inferenceos_fs/validator.c:140-184 | Two cursors at different speeds decide exactly the same predicate on the device, never reject an acyclic chain, and count its clusters |
| `RootValidator.AdvanceTwice` | src/filesystems/inferenceos_fs/validator.c:113-123 | The fast cursor follows the same walk, and reports corruption only if there is no chain |
| `FileIo.File.Read` | src/filesystems/inferenceos_fs/file.c:117-152 | Whatever the position, what comes back is what the clusters hold from there on, round the 32-bit position; barring a read error it succeeds exactly when they hold all that was set out for, and it is the read of a byte sequence exactly when the length is zero or the position is not behind the end |
| `FileIo.File.ReadBehindEnd` | src/filesystems/inferenceos_fs/file.c:131-133 | A seek behind the end and a read: whatever comes back, it is not what a byte sequence would give |
| `FileIo.File.Write` | src/filesystems/inferenceos_fs/file.c:154-197 | Refused exactly for the mode, a position behind the end, an end beyond 32 bits, a stranded file, or lack of clusters or workspace; an I/O error exactly when a transfer fails; success splices the input into the old bytes, growth included; a failure changes at most the stretch written; a write can strand an empty file, leaving it with a first cluster and size zero, only when it starts at position zero with enough free clusters and workspace, and then does so exactly when a transfer fails after the table has changed |
| `FileIo.File.Append` | src/filesystems/inferenceos_fs/file.c:220-227 | Adds to the end wherever the position was, or changes no byte, with the same exact refusals |
| `FileIo.File.EnsureClusters` | src/filesystems/inferenceos_fs/file.c:26-59 | Growth keeps the old bytes; it is refused exactly for a stranded file or lack of clusters or workspace; a failure, of zeroing in particular, restores the table exactly |
| `FileIo.File.ZeroFresh` | src/filesystems/inferenceos_fs/file.c:44-54 | If a fresh cluster cannot be zeroed all are free again |
| `FileIo.File.LoadChain` | src/filesystems/inferenceos_fs/file.c:14-24 | The file's own chain, or corruption exactly for a stranded file |
| `FileIo.File.Open` | src/filesystems/inferenceos_fs/file.c:61-108 | Opens exactly the valid pairs whose chain carries the size and fits the workspace |
| `FileIo.File.Seek` | src/filesystems/inferenceos_fs/file.c:199-218 | Any 32-bit position, also behind the end; overflow and range errors exactly when the sum says so |
| `FileIo.File.Close` | src/filesystems/inferenceos_fs/file.c:110-115 | Closes an open file and refuses one that is not open, which stays as it was |
| `FileIo.OthersKept` | src/filesystems/inferenceos_fs/file.c:117-197 | A file whose chain is disjoint keeps its chain and its bytes through every operation |
| `FileIo.SplicedReadsBack` | src/filesystems/inferenceos_fs/file.c:154-197 | What was written reads back, and the rest is where it was |
| `Crc32.Compute` | src/filesystems/inferenceos_fs/crc32.c:3-15 | The bitwise loop computes the checksum that `CrcDivision.CrcIsTheRemainder` characterises |
| `CrcDivision.CrcIsTheRemainder` | src/filesystems/inferenceos_fs/crc32.c:3-15 | For every input: a 32-bit number is its checksum exactly when it is the inverted remainder of the message, lowest bit of each byte first, times x^32 with the first 32 coefficients inverted, divided over the field of two elements by x^32+x^26+x^23+x^22+x^16+x^12+x^11+x^10+x^8+x^7+x^5+x^4+x^2+x+1 |
| `CrcDivision.BitIsTimesX` | src/filesystems/inferenceos_fs/crc32.c:8-12 | One turn of the inner loop is a multiplication by x, the generator taken off |
| `CrcDivision.RemainderUnique` | src/filesystems/inferenceos_fs/crc32.c:3-15 | There is only one remainder below x^32 |
| `Crc32.OneByteChangesRemainder` | src/filesystems/inferenceos_fs/crc32.c:3-15 | Changing one byte of an input of any length changes the remainder |
| `Crc32.SingleByteChangeBreaksSeal` | src/filesystems/inferenceos_fs/crc32.c:3-15 | A checksummed record of any size no longer checks out after any one byte is changed, the checksum included |
| `Crc32.StepInjective` | src/filesystems/inferenceos_fs/crc32.c:3-15 | The table step is injective in remainder and byte |
| `Records.PrimaryRoundTrip` | src/filesystems/inferenceos_fs/records.c:158-214 | Decoding an encoded primary gives it back |
| `Records.PrimaryCanonical` | src/filesystems/inferenceos_fs/records.c:158-214 | Every primary that decodes is the encoding of what it decodes to |
| `Records.CompanionRoundTrip` | src/filesystems/inferenceos_fs/records.c:216-262 | Decoding an encoded companion gives it back, committed or not |
| `Records.CompanionDetectsDamage` | src/filesystems/inferenceos_fs/records.c:240-262 | One changed byte anywhere makes a companion undecodable |
| `Records.CommittedPairReads` | src/filesystems/inferenceos_fs/records.c:264-290 | A committed companion with its own primary is a valid pair |
| `Records.UncommittedNeverReads` | src/filesystems/inferenceos_fs/records.c:264-290 | An uncommitted companion is a valid pair with no primary whatsoever |
| `Records.PrimaryEncodes` | src/filesystems/inferenceos_fs/records.c:158-214 | Encoding a primary is refused exactly for values that no record decodes to |
| `Records.CompanionEncodes` | src/filesystems/inferenceos_fs/records.c:216-290 | Encoding a companion is refused exactly for names that no file of a valid pair has |
| `Documented.ExtensionText` | src/filesystems/inferenceos_fs/records.c:99-115 | The extension is the text of the last three bytes, without the padding |
| `Documented.StoredNames` | src/filesystems/inferenceos_fs/records.c:28-48 | A stored name is a base of one to eight of the letters, digits, underscore and hyphen and an extension of up to three, each padded with spaces |
| `Documented.PrimaryTable` | docs/inferenceos-fs.md:133-146 | Each field of a primary record lies where the documentation puts it, and the rest is zero |
| `Documented.CompanionTable` | docs/inferenceos-fs.md:168-179 | The same for a companion record, its checksum taken over the record with that field zeroed |
| `Documented.HashVectors` | docs/inferenceos-fs.md:211-219 | The documented hashes of no extension, T, TX, TXT and BIN |
| `Documented.HashTextVector` | docs/inferenceos-fs.md:211-222 | The documented text of the hash of TXT |
| `Documented.ChecksumVector` | docs/inferenceos-fs.md:221-222 | The documented name checksum of REPORT.TXT |
| `Superblock.EncodeDecodes` | src/filesystems/inferenceos_fs/superblock.c:62-138 | Decoding an encoded superblock gives it back |
| `Superblock.DecodeEncodes` | src/filesystems/inferenceos_fs/superblock.c:97-138 | Every sector that decodes is the encoding of what it decodes to; the end of the table is a 32-bit sum, as in the source |
| `Superblock.DamageIsDetected` | src/filesystems/inferenceos_fs/superblock.c:97-138 | Any one changed byte of the sector makes it corrupt |
| `Superblock.ComputeCrc` | src/filesystems/inferenceos_fs/superblock.c:48-60 | The loop that skips its own field equals the checksum of the sector with that field zeroed |
| `Superblock.DamageEndsReadWrite` | src/filesystems/inferenceos_fs/superblock.c:140-153 | One damaged byte in either copy of a trusted pair always degrades it to diagnostic, never to wrong data |
| `Superblock.SameValuesReadWrite` | src/filesystems/inferenceos_fs/superblock.c:140-153 | Two decodable copies are trusted for writing exactly when they say the same |
| `Documented.SuperblockIdentity` | docs/inferenceos-fs.md:72-94 | Magic, versions and fixed sizes of a superblock lie where the documentation puts them |
| `Documented.SuperblockSizes` | docs/inferenceos-fs.md:83-90 | The same for the fields that vary |
| `Documented.SuperblockEnd` | docs/inferenceos-fs.md:94-97 | The same for checksum, reserved bytes and trailer |
| `Documented.VolumeTable` | docs/inferenceos-fs.md:36-55 | Table entries, clusters and directory records lie where the documentation puts them, in bytes of the volume |
| `Documented.EntryTable` | docs/inferenceos-fs.md:103-118 | What each value of a table entry means |
| `Documented.FreeSlots` | docs/inferenceos-fs.md:148-149 | Two neighbouring slots are free exactly when each is deleted or unused |
| `VolumeGeometry.CalculateGeometry` | src/filesystems/inferenceos_fs/formatter.c:13-61 | The binary search finds the least table that covers the clusters left beside it, and fails only when no such division exists |
| `VolumeGeometry.FindFatSectors` | src/filesystems/inferenceos_fs/formatter.c:26-44 | The search loop returns the least covering table size |
| `VolumeGeometry.GeometryFits` | src/filesystems/inferenceos_fs/formatter.c:43-61 | Regions are contiguous and in bounds with fewer than 8 sectors left over |
| `VolumeGeometry.TooManyClusters` | src/filesystems/inferenceos_fs/formatter.c:43-61 | A table too long for 32 bits always comes with too many clusters, and the cluster count is never zero: those checks cannot be the failing ones |
| `VolumeGeometry.GeometryUnique` | src/filesystems/inferenceos_fs/formatter.c:13-61 | A device size has at most one geometry |
| `VolumeGeometry.DocumentedSizes` | docs/inferenceos-fs.md:60-61 | The two layouts that the format document works out are the least ones |
| `Formatter.Format` | src/filesystems/inferenceos_fs/formatter.c:78-123 | Success leaves the calculated division on the medium for good: both superblocks, table, registry and root; each refusal comes exactly for its reason, read-only device, too small, no division, bad label, and writes nothing; an I/O error means that a transfer failed |
| `Formatter.FormattedIsSound` | src/filesystems/inferenceos_fs/formatter.c:78-123 | A fresh volume satisfies the crash-safety invariant |
| `Formatter.FormattedIsTidy` | src/filesystems/inferenceos_fs/formatter.c:78-123 | Its root directory is tidy and lists nothing |
| `Formatter.FormattedChain` | src/filesystems/inferenceos_fs/formatter.c:78-123 | The root chain is one cluster and all other data clusters are free |
| `Mount.Probe` | src/filesystems/inferenceos_fs/mount.c:18-101 | Unless a transfer fails: read-write only for volumes that deserve it, diagnostic only for merely inspectable ones, rejected only when not even that; and for every outcome, rejections included, the reason, the trusted copy and the bounds flag are exactly what the two copies and the root chain call for |
| `Mount.FormattedIsTrustworthy` | src/filesystems/inferenceos_fs/mount.c:18-101 | A volume as formatting leaves it deserves a read-write mount, with the geometry calculated and no other |
| `Mount.FormatThenProbe` | src/filesystems/inferenceos_fs/mount.c:18-101 | Format then probe always gives a read-write mount with both copies and the bounds trusted, the calculated geometry and values, a one-cluster root chain and all other data clusters free |
| `Mount.SameBounds` | src/filesystems/inferenceos_fs/mount.c:7-16 | Two copies that both describe the device describe the same division |
| `Registry.Registry.Lookup` | src/filesystems/inferenceos_fs/registry.c:408-473 | For every registry state, corrupt included, status and matches are those of the plain filter over the entries; the registry is marked stale exactly when its hint is not confirmed, and never after a rebuild over the same entries |
| `Registry.FilteredIsFilter` | src/filesystems/inferenceos_fs/registry.c:442-466 | A complete answer is every matching entry in order and nothing else |
| `Registry.FilteredAnswers` | src/filesystems/inferenceos_fs/registry.c:442-466 | An answer is complete exactly when every entry is sound and the matches fit the capacity |
| `Registry.Registry.Rebuild` | src/filesystems/inferenceos_fs/registry.c:330-406 | Success, exactly when all entries are sound and their distinct extensions fit, leaves one active record per extension pointing at its last entry; failure leaves the records alone |
| `Registry.Registry.FindActiveRecord` | src/filesystems/inferenceos_fs/registry.c:63-96 | Corrupt exactly when a record is unreadable or two are active for the extension; otherwise the one active record, or none |
| `Registry.Registry.Refresh` | src/filesystems/inferenceos_fs/registry.c:201-292 | The extension has exactly one active record afterwards, pointing at the entry, and every other extension has the records it had |
| `Registry.Registry.ValidateEntries` | src/filesystems/inferenceos_fs/registry.c:294-325 | Passes exactly when all entries are sound and the number of distinct extensions fits |
| `Registry.KnownIsIndexed` | src/filesystems/inferenceos_fs/registry.c:361-382 | During a rebuild an extension has a record exactly when an earlier entry had it |
| `Registry.HintIsTrue` | src/filesystems/inferenceos_fs/registry.c:408-473 | An up-to-date registry is consistent for every extension and confirms every lookup |
| `RegistryRecord.EncodeDecodes` | src/filesystems/inferenceos_fs/registry_record.c:81-158 | Decoding an encoded registry record gives it back |
| `RegistryRecord.DecodeEncodes` | src/filesystems/inferenceos_fs/registry_record.c:111-158 | Every record that decodes is the encoding of what it decodes to |
| `RegistryRecord.DamageIsDetected` | src/filesystems/inferenceos_fs/registry_record.c:111-158 | One changed byte makes a registry record undecodable |
| `Documented.RegistryTable` | docs/inferenceos-fs.md:281-297 | Each field of a registry record lies where the documentation puts it |
| `WindowManager.Manager.Compose` | src/gui/window/compositor.c:56-93 | Repainting the marked rectangle alone makes the whole screen the scene: pointer, else topmost visible window, else desktop |
| `WindowManager.Manager.CompositeLayer` | src/gui/window/compositor.c:66-82 | Each pass draws exactly the one window of its order over the marked part |
| `WindowManager.Manager.CompositeWindow` | src/gui/window/compositor.c:27-54 | Copies what window and marked part have in common, and no other pixel |
| `WindowManager.Manager.Create` | src/gui/window/window_manager.c:118-156 | The window takes the lowest free slot and the next generation of that slot, is on top and focused, orders stay a permutation of 1..count, the other windows stay as they are, and every unmarked pixel still shows the scene |
| `WindowManager.Manager.StaleHandle` | src/gui/window/window_manager.c:3-14 | A handle from some windows ago reaches the window now in its slot exactly after every 65535 windows |
| `WindowManager.HandleComesRound` | src/gui/window/window_manager.c:140-141 | The generations of a slot repeat exactly every 65535 windows and are never zero, so a destroyed window's handle reaches no other window before that |
| `WindowManager.Manager.Destroy` | src/gui/window/window_manager.c:158-179 | Only that window goes, the ones above move down, its handle is dead, and every unmarked pixel still shows the scene |
| `WindowManager.Manager.Move` | src/gui/window/window_manager.c:181-195 | Only the bounds change, and every unmarked pixel still shows the scene |
| `WindowManager.Manager.SetVisible` | src/gui/window/window_manager.c:197-209 | Only visibility and focus change, and every unmarked pixel still shows the scene |
| `WindowManager.Manager.Raise` | src/gui/window/window_manager.c:211-233 | The window is on top, the others keep their order, and every unmarked pixel still shows the scene |
| `WindowManager.Manager.Invalidate` | src/gui/window/window_manager.c:235-269 | What shows on screen of the named part is marked, also where the translation saturates |
| `WindowManager.Manager.Repaint` | src/gui/window/window_manager.c:235-269 | A client that draws inside the part it names keeps every unmarked pixel right |
| `WindowManager.Manager.RenderOwned` | src/gui/window/window_manager.c:271-288 | Only the owner gets its window composed |
| `WindowManager.Manager.SetPointer` | src/gui/window/window_manager.c:297-307 | Old and new place of the pointer are marked, and every unmarked pixel still shows the scene |
| `WindowManager.Manager.AddDirty` | src/gui/window/window_manager.c:44-71 | What was marked stays marked and the on-screen part of the rectangle is added, by the least rectangle around both |
| `WindowManager.UnionIsLeast` | src/gui/window/window_manager.c:58-70 | No rectangle around both is smaller |
| `WindowManager.Manager.InvalidateDesktop` | src/gui/window/window_manager.c:290-295 | The on-screen part of the rectangle is marked beside what was marked before |
| `WindowManager.Manager.SelectTopFocus` | src/gui/window/window_manager.c:81-93 | Exactly the topmost visible window has the focus |
| `Scene.RaiseKeepsOrder` | src/gui/window/window_manager.c:211-233 | Raising keeps the orders a permutation |
| `Scene.RemovalKeepsOrder` | src/gui/window/window_manager.c:158-179 | Removing a window keeps the orders a permutation |
| `Scene.RaiseLooksSame` | src/gui/window/window_manager.c:211-233 | Where the raised window shows nothing, the stack looks as before |
| `Scene.RemovalLooksSame` | src/gui/window/window_manager.c:158-179 | Where the removed window showed nothing, the stack looks as before |
| `Line.DrawLine` | src/gui/graphics/primitives.c:46-78 | For all 32-bit endpoints: terminates after as many steps as the longer extent, starts and ends on the endpoints, and colours exactly the pixels of the line on the surface |
| `Line.StepStaysNear` | src/gui/graphics/primitives.c:62-76 | Each step stays within half a pixel of the true line, and the doubled error term is at most three times the longer extent, so 64 bits never overflow |
| `Line.LineUnique` | src/gui/graphics/primitives.c:46-78 | The two endpoints determine the line: there is only one such path |
| `Line.LineInBox` | src/gui/graphics/primitives.c:46-78 | No point of the line leaves the bounding box of the endpoints |
| `Primitives.FillRect` | src/gui/graphics/primitives.c:21-44 | Fills the part of the rectangle on the surface and nothing else |
| `Primitives.DrawPointer` | src/gui/graphics/primitives.c:103-113 | Fills the pointer's pixels on the surface and nothing else |
| `Ring.Ring.Write` | src/drivers/hyperv/ring.c:66-139 | Succeeds exactly when there is room with one byte to spare, and then lays the packet's frame, payload zero-padded to 8 bytes, behind the write index, moves the index behind it and adds the packet at the end of the queue; otherwise changes no byte |
| `Ring.Ring.WriteGpaDirect` | src/drivers/hyperv/ring.c:141-226 | The same, with the same exact condition, for a packet whose frame names exactly the pages of the memory range |
| `Ring.Ring.Read` | src/drivers/hyperv/ring.c:228-289 | Takes the oldest packet, in full and in order, and moves the read index by exactly its frame, or leaves the ring alone; on a ring that the driver wrote it fails only for an empty ring or a small buffer, and on any ring the answer is exactly what indexes and descriptor call for |
| `Ring.Ring.Take` | src/drivers/hyperv/ring.c:262-289 | Copies the stated stretch out, across the end of the ring, and lets exactly one frame go |
| `Ring.HoldsMore` | src/drivers/hyperv/ring.c:66-139 | A frame laid into the free part extends the queue and disturbs no unread byte |
| `Ring.HeadFrame` | src/drivers/hyperv/ring.c:228-289 | What the reader finds at its index is the oldest frame, and its descriptor passes every test |
| `RingBytes.AdvanceExact` | src/drivers/hyperv/ring.c:43-46 | The 32-bit sum reduces correctly for every move that a frame can cause exactly when the ring is at most 2^32 - 2^19 bytes long |
| `RingBytes.AdvanceFails` | src/drivers/hyperv/ring.c:43-46 | In every longer ring there is an aligned index from which the move past the longest frame ends in the wrong place |
| `RingBytes.LongestFrameMisleads` | src/drivers/hyperv/ring.c:66-80 | The driver accepts payloads that make a frame that long |
| `RingBytes.PagesCover` | src/drivers/hyperv/ring.c:174-188 | The page numbers sent are exactly the pages that the memory touches |
| `RingBytes.PageNumberAt` | src/drivers/hyperv/ring.c:174-188 | Each place of the page list carries the number of its page in 8 bytes |
| `RingBytes.PlainFields` | src/drivers/hyperv/ring.c:115-135 | A plain packet on the wire: type, data offset, length in units of 8, flags, transaction, payload, zeros, and one word with the write index above the read index |
| `RingBytes.GpaFields` | src/drivers/hyperv/ring.c:180-218 | The same for a packet whose data stays in memory: the range header with its byte count and offset, the page numbers, and the padded payload |
| `RingProtocol.RunDelivers` | src/drivers/hyperv/ring.c:66-289 | In every interleaving of one producer and one consumer, byte copies included, frames arrive once, in order and whole, and the ring never fills up completely |
| `RingProtocol.PacketsArrive` | src/drivers/hyperv/ring.c:66-289 | The same for packets: kind, transaction and padded payload arrive as sent |
| `RingProtocol.SeenIsEnough` | src/drivers/hyperv/ring.c:228-262 | A stale write index still covers the whole frame being read |
| `RingProtocol.CopyInKeeps` | src/drivers/hyperv/ring.c:13-25 | A partial copy of the producer never touches an unread byte, however old the read index it saw |
| `RingProtocol.WriteIsSteps` | src/drivers/hyperv/ring.c:66-139 | A whole write call, as `Ring.Write` states it, is the producer's three steps in a row, and every such row is a call |
| `RingProtocol.ReadIsSteps` | src/drivers/hyperv/ring.c:228-289 | A whole read call, as `Ring.Read` states it, is the consumer's steps in a row, the descriptor before the rest, and every such row is a call |
| `RingProtocol.PacketsAreWellSized` | src/drivers/hyperv/ring.c:66-226 | The frames that the driver's writes lay state their own length, so the protocol's steps apply to them |
| `Path.Normalize` | src/vfs/path.c:89-134 | The buffer ends up holding exactly the rendered component stack, or an empty string and the error of the fold |
| `Path.NormalIsIdempotent` | src/vfs/path.c:89-134 | Normalizing the output again returns it unchanged, whatever the current directory |
| `Path.NormalIsCanonical` | src/vfs/path.c:89-134 | The output has no empty, dot or dot-dot component and keeps the length and depth bounds |
| `Path.RelativeIsJoined` | src/vfs/path.c:117-131 | A relative path means what the current directory, a slash and the path mean together; an absolute path is on its own |
| `Path.DotVanishes` | src/vfs/path.c:34-34 | A dot component changes nothing wherever it stands |
| `Path.NameAndUpCancel` | src/vfs/path.c:35-41 | An accepted name and two dots behind it cancel |
| `Path.UpAtRoot` | src/vfs/path.c:35-41 | Two dots at the root stay at the root |
| `Path.NameAnswers` | src/vfs/path.c:42-50 | One more name is accepted exactly below 15 names, with printable bytes, and up to 255 bytes that the buffer holds; each refusal has its own error |
| `Path.SplitsAtSlash` | src/vfs/path.c:62-87 | A path is split at its slashes |
| `Path.PieceIsComponent` | src/vfs/path.c:62-87 | And at nothing else; empty pieces are dropped |
| `Path.Builder.AppendComponent` | src/vfs/path.c:22-60 | One component is added, dropped or skipped as the stack says; dropping restores exactly the earlier prefix, and dot-dot at the root does nothing |
| `Path.Builder.ConsumePath` | src/vfs/path.c:62-87 | All components of one path, left to right |
| `Path.RenderSplits` | src/vfs/path.c:62-87 | Splitting a canonical text gives the stack that it was rendered from |
| `Virtio.Driver.Submit` | src/drivers/virtio_blk/virtio_blk.c:78-120 | Refused exactly by its arguments, for lack of a free slot, or when a buffer has no bus address; else it takes the first free slot and publishes the request, and a failed publication leaves no trace |
| `Virtio.Driver.Publish` | src/drivers/virtio_blk/transport_pci.c:627-692 | The request's own three descriptors are laid out, all others untouched, and its head is the next available entry |
| `Virtio.Driver.Complete` | src/drivers/virtio_blk/virtio_blk.c:122-140 | Only a pending request can be completed, once |
| `Virtio.Driver.Service` | src/drivers/virtio_blk/transport_pci.c:694-727 | Ends for any device; every used entry taken names a pending request, and from a conforming device it never fails and takes all of them |
| `Virtio.Driver.Poll` | src/drivers/virtio_blk/virtio_blk.c:142-169 | A finished request is reported once with the device's outcome and its slot freed; from a conforming device it is finished exactly when the device has returned it |
| `Virtio.Driver.Fail` | src/drivers/virtio_blk/virtio_blk.c:171-182 | Everything pending ends with the error and the device takes no more requests |
| `Virtio.Driver.CountsAgree` | src/drivers/virtio_blk/virtio_blk.c:108-115 | Outstanding is the number of slots in use, and while ready the available index minus the last used index, modulo 2^16, is the number of pending requests |
| `Virtio.Driver.DeviceReads` | src/drivers/virtio_blk/transport_pci.c:686-690 | The entry that a conforming device reads next has not been overwritten, across 16-bit wrap, and its chain shows the published request (section 2.7 of VIRTIO 1.2) |
| `Virtio.Driver.DeviceReturns` | src/drivers/virtio_blk/transport_pci.c:706-725 | A used entry written by a conforming device overwrites none that the driver has yet to see |
| `Virtio.Driver.NextPowerOfTwo` | src/drivers/virtio_blk/transport_pci.c:484-492 | The least power of two that is not below the value, up to 256 |
| `VirtioQueue.DescribedIsPresented` | src/drivers/virtio_blk/transport_pci.c:644-685 | Following the chain the device finds header, data with the right direction, and status byte |
| `VirtioQueue.OthersStillDescribed` | src/drivers/virtio_blk/transport_pci.c:634-636 | The descriptor triples of different requests are disjoint |
| `VirtioQueue.WrapsEvenly` | src/drivers/virtio_blk/transport_pci.c:686-688 | Because the queue size is a power of two, a 16-bit index and the count behind it fall on the same entry |
| `VirtioQueue.NextIsPending` | src/drivers/virtio_blk/transport_pci.c:706-724 | What a conforming device returns next is pending |
| `CapabilityList.Walk` | src/drivers/virtio_blk/transport_pci.c:310-424 | Ends on every configuration space, cyclic ones included; it reports an I/O error exactly when a read fails, and otherwise succeeds exactly when there is a proper list whose capabilities give all four regions, each once and large enough, and then these are the regions |
| `CapabilityList.GatherOn` | src/drivers/virtio_blk/transport_pci.c:346-395 | What a list gives is what its first part gives, carried on through the rest |
| `CapabilityList.CycleHasNoList` | src/drivers/virtio_blk/transport_pci.c:330-337 | A walk that comes back to a place it has visited can never end, so refusing it is right |

## Left out

- Documentation: `docs/inferenceos-fs.md` puts the uncommitted companion before the content; the code at `src/filesystems/inferenceos_fs/file_service.c:972-1000` writes the content first, and the model follows the code.
- Rename: the branch that moves a file to another directory, which also covers a file lying in a later cluster of its directory (`src/filesystems/inferenceos_fs/file_service.c:1200-1206`), is not modelled; it commits the destination before it deletes the source, so both are briefly valid.
- Create and remove of directories, enumeration, extension search, free-space count and the VFS entry points of the file service: creating a directory would make the volume value `v` grow within a run, while the theorems hold for any number of directories that stay. Path resolution is replaced by a directory cluster parameter, and a file's identity is its cluster and primary slot.
- FreshVolume.FreshRunStaysTidy: a request that breaks off after a write ends the statement, because it can leave its directory cluster unscannable; `CutDirectory.CutLists` says exactly when. Version 1 of the format promises no repair (`docs/inferenceos-fs.md:320-324`), so the other files of that cluster stay whole but cannot be reached by name.
- FileService.Service.Run: directory clusters are those of the volume value `v`, which stays the same over a run because directories are neither created nor removed in it, and requests name files in them: an object identity that lies in a cluster of file data is looked up exactly (`FileService.Service.LocateObject`), but not operated on.
- FileService.Service.Delete: for a file with more than 256 clusters the source marks both records and then cannot list the chain; the model does the same, so `Leaks.NothingLeaks` is about requests that are served, and `Leaks.Overlong` names the case. The service itself never makes such a file; byte access through `file.c` can.
- FileService.Service.LocateObject: the pair validation that follows the scan in the source is subsumed by the scan's own checks.
- FileService.Service.PersistFat: a full list of changed table sectors drops the mark, as in the source; this can only leave clusters allocated that no file has, and the contracts are stated so that they hold in that case too.
- FileService.Service.Create: says nothing about the 8.3 canonicalization of the given text (`src/filesystems/inferenceos_fs/records.c:72-145`); names come in as stored names.
- BlockDevice: device faults, torn failed writes and power cuts are nondeterminism; a multi-sector write is a run of single-sector writes. Null checks and the `io_active` flag are left out.
- Sync.SyncLayer.Barrier: the invalidation that detaches the cache (`src/filesystems/inferenceos_fs/sync.c:64-71`) is left out; the cache's own part of it is `BlockCache.Cache.Invalidate`.
- `src/filesystems/inferenceos_fs/validator.c:40-91`, the owner map over a list of chains, makes the same check as the ownership validation of `fat.c` with a size bound added.
- Cluster I/O of an open file goes to a store whose calls may fail at any time, each failure counted; scratch buffers are values.
- Ring.Ring.Write: rings longer than 2^32 - 2^19 bytes are excluded, because `RingBytes.LongestFrameMisleads` shows the index arithmetic wrong for a frame in each of them. Setting up a ring from an existing header is left out.
- RingProtocol.RunDelivers: memory barriers and index accesses are atomic ordered steps.
- Registry.Registry.Rebuild: does not state the update generation of the records, which nothing reads. The start-up scan, the active count and the plain find are left out, and a registry starts out empty.
- WindowManager: client surfaces are values and the row stride is abstracted by two-dimensional arrays; the source keeps a pointer to memory that clients draw into, which `WindowManager.Manager.Repaint` stands for. Pointer coordinates within eight pixels of the 32-bit limit are left out.
- Virtio.Driver.Submit: which buffers have a bus address is given, and one that has none comes as `Io`; feature negotiation, reset and MMIO are left out.
- Virtio.Driver.Service: sees the used ring as it stands when it is called; returns that arrive during its loop are taken by the next call. The retry loop with its time-out around polling is left out.
- CapabilityList.Walk: the base address registers are given, and the bit mask of visited places is a set.
- Path resolution and the current-directory context around normalization, `src/vfs/path.c:136-277`, are left out.
- `src/filesystems/inferenceos_fs/transaction.c` and `subdirectory.c`, IPC, shell, boot, hardware and user interface code are not part of this model.
