# ARFW: a verified model

ARFW mounts APFS partitions read-only on Windows. This project models its four stateful pieces and
proves what they are for, in Dafny 4.11. `dafny verify dfyconfig.toml` checks everything.

| file | models |
|---|---|
| `Basics.dfy` | machine integers (release-build wrapping written out), options and results |
| `Device.dfy` | a Win32 handle on a raw disk: one file pointer, calls that may fail, reads that may be short |
| `Disk.dfy` | `DiskReader`: sector windows, positioned reads, stream reads, seeks, `read_exact` |
| `Stream.dfy` | that a `DiskReader` is a byte stream over its partition, and that all access paths agree |
| `Extents.dfy` | the extent map: its first-match lookups, what it means, how the vendored `apfs` crate builds it |
| `FileRead.dfy` | `ApfsDriver::read` |
| `Interleaving.dfy`, `Isolation.dfy` | reads and metadata operations of many threads, system call by system call |
| `FileTime.dfy` | timestamps and allocation sizes |
| `Volume.dfy`, `StatCache.dfy`, `CacheEffects.dfy`, `Driver.dfy` | the metadata callbacks and the LRU stat cache |
| `Overflow.dfy` | which resolved entries a listing that overflows the cache loses |
| `Paths.dfy`, `Catalog.dfy` | `stat`, `stat_and_extents`, `list_directory` and `resolve_path` of the vendored `apfs` crate |
| `CacheMachine.dfy`, `CacheTransparency.dfy` | concurrent callbacks, and when the cache is invisible |
| `RecencyList.dfy` | the same for calls in sequence on the driver with its recency list |
| `Structures.dfy`, `Images.dfy` | the walk to the volume's block counters, and disks it reads them back from |
| `Keys.dfy`, `Mounts.dfy`, `Letters.dfy`, `Reconciler.dfy` | the mount table, disk handles, drive letters, one scan |
| `Attempts.dfy` | what one scan makes of each partition, whatever the other mounts do |
| `Convergence.dfy`, `Scans.dfy`, `OneScan.dfy`, `DaemonLoop.dfy` | the reconciler over all runs, repeated scans, the daemon loop |
| `Watcher.dfy` | the sender shared with device-change callbacks |
| `Service.dfy` | the service start-up wait |

## How the outside is modelled

Every Win32 call is a method or step that may do anything its documentation allows: `SetFilePointerEx`
and `ReadFile` may fail, `ReadFile` may return any number of bytes up to what was asked and what the disk
holds, and it *requires* sector alignment, so alignment is proved of every read the driver issues. The `did`
out-parameters are the stretch of the handle's own call log that an operation added; a claim that needs a
behaving device (`Healthy`: each call succeeds and each read reaches past the leading bytes of its sector
window or to the end; `FullService`: each read brings all there is) says so. The APFS volume is an immutable oracle whose queries may fail. Mount
attempts fail at any stage the environment picks, and other processes hold any drive letters. Clocks and
service-manager answers are functions of the attempt. Arithmetic wraps as in a release build.

## Findings

- The stat cache is **not** invisible on every volume. On a volume of the vendored crate whose directories have at most
  4096 entries each, it is exactly when no directory's inode has a size other than 0, and every listed child of a
  directory that opens can be resolved and read, and is a directory by its record exactly if it is by its inode
  (`Catalog.Consistent`, `RealCacheIsTransparentIffConsistent`): otherwise two or three calls in sequence get a wrong
  reply. A root directory with a size is enough (`RootSizeShows`). Under any interleaving and eviction the condition is
  sufficient for volumes of any size, and necessary for a cache that may evict any entry once it is full
  (`CacheIsTransparentIffConsistent`); in a larger directory of the real cache each of the last 4096 children shows
  (`DisagreeingChildIsAnsweredWrongly`).
- A listing can push out a resolved entry and then store the unresolved one. For listings of any length it does so to
  the entry at recency position j exactly when some round reaches its name after at least capacity - j stores, not
  stored among the last capacity ones, and fewer than capacity stores follow (`ListingDowngradesIff`;
  `ListingDowngrades` is an input for every capacity from 2). No single store ever replaces a resolved entry by an
  unresolved one (`ResolvedStaysResolved`).
- A failed device call is never reported as a short read or the end of a file: a read succeeds exactly if every call
  it made did (`DiskReader.Read`, `ReadAt`, `FileRead.Read`).
- A hole in the extent map is an error, never zeros (`FileRead.Read`); a file whose size exceeds its extents
  cannot be read past them (`ReadBuiltFile`). A file that runs past the end of the device is read short, without an
  error, up to where it leaves the device (`FileRead.Outcome`).
- A mount that fails costs no other partition anything: leaving out all failing attempts changes neither what is
  mounted nor at which letters (`FailuresDoNotMatter`).
- One scan may leave a partition unmounted although a letter is free at its end (`OneScanIsNotEnough`, reached from
  the empty daemon). It is enough exactly when the new partitions do not outnumber the free letters, or no letter
  comes back from the volumes that went away (`OneScanIsEnoughIff`); two scans always are (`SecondScanConverges`).
- While device events keep coming, a signalled shutdown is not looked at (`BusyLoopNeverExits`). The loop exits exactly
  when some turn k after the signal finds the queue drained: the events queued at the signal and those that have
  arrived up to and with turn k are at most k (`ExitsIffDrained`). By then it has made one scan for each of them
  (`ExitsAfterOneScanPerEvent`).
- A failed positioned read leaves the buffer as it was (`ReadAtAbsolute`, `ReadAt`). So does a failed stream read, unless
  the last of its four calls, which restores the file pointer, is the one refused: then the buffer holds the data
  (`DiskReader.Read`).
- File times are quotients truncated toward zero, so the two 100 ns intervals that meet at 1970 look alike
  (`FileTimeLosesOnlySubIntervals`).

## Model

| member | source | states |
|---|---|---|
| Disk.WindowIsSmallestCover | src/disk.rs:81-84 | the sector window is aligned, covers the request, is contained in every aligned range that covers it, and wastes at most 1022 bytes |
| Disk.FullReadDelivers | src/disk.rs:100-101 | a window served as far as the device reaches gives the request as far as the device reaches |
| Disk.DiskReader.ReadAtAbsolute | src/disk.rs:76-105 | the bytes handed over are the device's at the absolute offset, the rest of the buffer is untouched, an error leaves the buffer alone; it succeeds if and only if no device call failed; a behaving device fails only at offsets from 2^63 on, which always fail, and brings progress on the device; a full one brings everything |
| Disk.DiskReader.ReadAt | src/disk.rs:108-110 | the same at partition offset plus position: bytes, untouched rest, an error that leaves the buffer alone, success exactly if no device call failed, progress on a behaving device, everything on a full one |
| Disk.DiskReader.Read | src/disk.rs:324-379 | it succeeds if and only if no device call failed; then it returns the bytes under the file pointer and moves it by exactly their number, whatever the device shortens; a failed one leaves the buffer alone, unless only the restoring seek was refused, and then it holds the data |
| Disk.DiskReader.Seek | src/disk.rs:381-399 | where each kind of seek leads and the partition-relative position it reports, saturating at 0; it succeeds if and only if the device call did |
| Disk.DiskReader.ReadExact | src/disk.rs:171-175 | success means the buffer is full with consecutive bytes; on a behaving device only the end of the disk makes it fail |
| Stream.StepRefinesStream | src/disk.rs:324-399 | a successful seek or read, seeks from the end included, is an operation of a byte stream over the partition if and only if it does not overflow and does not step in front of the partition |
| Stream.RunRefinesStream | src/disk.rs:324-399 | the same for every sequence of operations |
| Stream.StartSeekEntersStream | src/disk.rs:382-398 | from any file pointer, also the absolute 0 of a fresh handle, the first Start seek brings the refinement into force |
| Stream.SplitsAgree | src/disk.rs:324-379 | however reads are split or shortened, the concatenated bytes agree |
| Stream.ViaReadAt | src/disk.rs:108-110 | with full service, read_at at p returns what the partition holds at p, as far as it reaches |
| Stream.ViaSeek | src/disk.rs:324-399 | with full service, seek to p then read returns exactly the same bytes |
| Stream.ViaRawHandle | src/driver.rs:264-268 | with full service, a raw second handle at partition offset plus p returns exactly the same bytes |
| Extents.LookupsSelectTogether | src/driver.rs:101-117 | a located position always has bytes left in its extent: the branch on 0 is never taken |
| Extents.FirstClaimDecides | src/driver.rs:101-117 | on every map, sound or not, both lookups answer from the first extent that claims the position |
| Extents.UnclaimedIsAHole | src/driver.rs:101-117 | and fail when none does |
| Extents.LookupsFindOwner | src/driver.rs:101-117 | under disjointness a position has one owner and both first-match lookups report that extent |
| Extents.HoleIsUnowned | src/driver.rs:101-108 | the lookup fails exactly at positions no extent owns |
| Extents.BuildExtentMap | vendor/apfs/src/lib.rs:258-273 | the loop lays the extents end to end from 0 and drops empty ones; also when the running offset wraps, its result is a function of the extents |
| Extents.TilingIsSound | vendor/apfs/src/lib.rs:258-273 | a built map is disjoint and overflow-free |
| Extents.TilingCovers | vendor/apfs/src/lib.rs:258-273 | a built map has no hole below its total length |
| Extents.HeldIsContent | vendor/apfs/src/extents.rs:8-47 | what a file holds through a built map is what a sequential reader of its extents delivers |
| FileRead.Read | src/driver.rs:231-277 | never more than the buffer or the rest of the file, every byte is the file's, the buffer behind is untouched; what a caller wants is read to the end of the buffer or of the file when it is mapped and the device behaves; a success means no device call failed, an error without a failed call means a hole |
| FileRead.ReadChunks | src/driver.rs:247-276 | the loop, through a sound map on a behaving device: complete when all is mapped, short exactly where the file is owned beyond the device, an error exactly at a hole or an address from 2^63 on |
| FileRead.OutcomeIsUnique | src/driver.rs:249-276 | there is one such result |
| FileRead.ReadChunk | src/driver.rs:252-274 | one turn of the loop: bytes of one extent; through a sound map on a behaving device, progress exactly when this position is mapped, nothing when it is owned beyond the device, an error otherwise |
| FileRead.BuiltMapIsGood | vendor/apfs/src/lib.rs:258-273 | through a built map a request is mapped if and only if it ends inside the extents with its bytes on the device |
| FileRead.ReadBuiltFile | src/driver.rs:231-277 | end to end: the bytes a plain sequential reader delivers, to the end of the buffer or of the file when they are inside the extents and on a behaving device; otherwise short or an error exactly as extents and device decide |
| Interleaving.InitialIsSafe | src/driver.rs:54-67 | every start state, with handles anywhere and any requests waiting, satisfies the invariant |
| Interleaving.EveryInterleavingIsSafe | src/driver.rs:247-274 | from every start state, in every interleaving of lock, position, fetch and unlock, every file read has exactly a prefix of its file's bytes, and only the lock holder is inside |
| Interleaving.SomeReadCanGoOn | src/driver.rs:247-276 | in every interleaving, while a read has not returned some read can go on, and metadata operations never wait for reads |
| Interleaving.SidesAreIndependent | src/driver.rs:54-67 | removing all metadata steps from a run leaves every file read unchanged, and removing all file reads leaves the metadata pointer, lock and bytes unchanged |
| Interleaving.WithoutMutexReadsGoWrong | src/disk.rs:413-420 | without the mutex a run exists in which a read returns another thread's bytes |
| Isolation.EachReadRunsAsIfAlone | src/driver.rs:244-276 | for every extent map and every run, the steps of one file read alone are a run of it alone, which ends with the same bytes in the same phase |
| Isolation.LocatedReadsComplete | src/driver.rs:249-274 | among any other threads, a read that a behaving device serves without failure, and whose positions the lookups locate on the device, ends with its whole request |
| Isolation.ServedReadIsCompleteIffMapped | src/driver.rs:231-277 | through a sound map such a read has its whole request when it returns if and only if every requested position is mapped, and has the file's bytes |
| FileTime.FileTimeIsExact | src/driver.rs:80-84 | for every i64 the wrapped computation is the exact one, and both copies agree |
| FileTime.FileTimeReports | src/utils.rs:3-11 | the file time counts whole 100 ns intervals from 1970, within 99 ns of the instant on the side of 1970; no other value does |
| FileTime.FileTimeIsMonotone | src/utils.rs:3-11 | later instants never get earlier file times |
| FileTime.FileTimeLosesOnlySubIntervals | src/driver.rs:80-84 | two instants look alike exactly when they share a 100 ns interval counted away from 1970, or both lie less than 100 ns from it |
| FileTime.AllocationIsLeastMultiple | src/driver.rs:128 | the least multiple of 4096 not below the size, or 0 when the sum overflows |
| FileTime.MaskRoundsDown | src/driver.rs:128 | masking a word with the complement of 4095 is rounding down to a multiple of 4096 |
| Volume.InfoDescribes | src/driver.rs:119-134 | what each of the eight fields is about, and no other information satisfies that |
| Volume.CreationTimeShowsAlone | src/driver.rs:129 | the creation time shows in one field only, and the earlier instant as the earlier one |
| Volume.ModificationTimeShowsAlone | src/driver.rs:130-132 | the modification time shows in the other three, and the earlier instant as the earlier one |
| Volume.AnswerIsReply | src/driver.rs:140-403 | the replies of all four callbacks in every state of the cache, spelled out with their status codes |
| Volume.HitIsDirect | src/driver.rs:156-162 | a hit on a sound entry is the reply without cache |
| Volume.ListedIsSound | src/driver.rs:306-333 | an entry planted by a listing is sound when listings and stats agree |
| Paths.ChildComponents | vendor/apfs/src/catalog.rs:469-477 | the path the driver forms for a child splits into its directory's components and the child's name, whatever slashes the directory's path has |
| Catalog.FindIsFirstNamed | vendor/apfs/src/catalog.rs:540-552 | the first record with the name decides, and without one nothing is found |
| Catalog.FindIffHeld | vendor/apfs/src/catalog.rs:540-552 | with distinct names, found exactly if some record holds name and child |
| Catalog.ResolvesIffLeadsTo | vendor/apfs/src/catalog.rs:462-506 | a path resolves to exactly the inode at the end of its chain of names, in which all records but the last are of directories |
| Catalog.AbsentChildIsNotFound | vendor/apfs/src/catalog.rs:462-552 | a name that no record of the directory carries is not found, whatever else is there |
| Catalog.ResolvePath | vendor/apfs/src/catalog.rs:462-506 | the component loop is the walk through first records by name |
| Catalog.ListRecords | vendor/apfs/src/catalog.rs:342-377 | the listing loop: decodable records in order, kind and number from the record, size and times from the inode or 0 |
| Catalog.RecordIsListed | vendor/apfs/src/catalog.rs:342-377 | every record that decodes is listed, behind exactly those in front of it that do, with the size and times of its inode or 0 |
| Catalog.InfoIsInodes | vendor/apfs/src/lib.rs:340-363 | get_file_info without the cache reports the inode at the end of the path, field by field |
| Catalog.OpenedIsInodes | vendor/apfs/src/lib.rs:218-275 | so does open, with a file's extents and size, and nothing and 0 for a directory |
| Catalog.NothingThereIsNotFound | vendor/apfs/src/lib.rs:218-363 | a path that leads to no readable inode is not found |
| Catalog.RootIsListed | vendor/apfs/src/lib.rs:146-177 | the root is listed even if its inode cannot be read |
| Catalog.ListedChildResolves | vendor/apfs/src/catalog.rs:462-552 | resolving the path of a listed child leads to the inode under the listed number, or to nothing |
| Catalog.StatsAgreeIffSizeZero | vendor/apfs/src/lib.rs:218-275 | stat and stat_and_extents agree on a path exactly when it is no directory whose inode size is not 0 |
| Catalog.ListedChildTruthfulIff | vendor/apfs/src/catalog.rs:349-374 | a listed entry, its inode readable or not, is truthful exactly when its path leads to it, inode and extents can be read, record and inode agree on being a directory, and a directory's size is 0 |
| Catalog.AgreesIffConsistent | vendor/apfs/src/lib.rs:146-275 | listings and stats agree if and only if that holds of all children of directories that open, and no directory has a size |
| StatCache.TouchKeepsContents | src/driver.rs:93-95 | a lookup changes the order of the cache only |
| StatCache.TouchMovesToFront | src/driver.rs:93-95 | a hit becomes the most recent entry, the others keep their order, a miss changes nothing |
| StatCache.InsertIsEvictThenStore | src/driver.rs:97-99 | a put evicts at most the least recently used entry, and stores one entry |
| StatCache.InsertPutsInFront | src/driver.rs:97-99 | a put becomes the most recent entry, a new one in a full cache costs the last, the others keep their order |
| StatCache.LruCache.Get | src/driver.rs:93-95 | the value under the path, and the new order |
| StatCache.LruCache.Put | src/driver.rs:97-99 | the new slots, never more than the capacity |
| Driver.ApfsDriver.GetSecurityByName | src/driver.rs:140-186 | reply and new cache for every state, the reply spelled out; the reply without cache when the volume agrees; no resolved entry is downgraded |
| CacheEffects.SecurityRemembers | src/driver.rs:156-180 | it leaves the entry it used in front, a missing one with its extents |
| Driver.ApfsDriver.Open | src/driver.rs:188-227 | the same: size, times, attributes, index number and allocation size of the entry used; a file always gets its own extents and size, never a listing's empty map |
| CacheEffects.OpenRemembers | src/driver.rs:197-214 | it leaves what it used in front, resolved unless it is a directory's, and stores nothing when it fails |
| Driver.ApfsDriver.ReadDirectory | src/driver.rs:279-336 | the listing is the volume's; new children are cached in order; a listing that fits keeps every entry; one of any length leaves resolved entries resolved exactly when none is pushed out and stored for good |
| Overflow.DowngradedIffStored | src/driver.rs:305-335 | for listings of any length, a resolved entry ends unresolved exactly when its name is among the last capacity names stored |
| Overflow.ListingDowngradesIff | src/driver.rs:305-335 | the same by recency position, for listings of any length: exactly when a round reaches its name after at least capacity - j stores, not stored among the last capacity ones, and fewer than capacity follow |
| Overflow.ShortListingDowngradesIff | src/driver.rs:305-335 | up to capacity entries: exactly when its name is reached after at least capacity - j stores |
| Overflow.ListingKeepsResolvedIff | src/driver.rs:305-335 | a listing of any length leaves every resolved entry resolved exactly when that happens to none |
| Overflow.UncachedNamesPushOut | src/driver.rs:305-335 | distinct uncached names in front are all stored, so capacity - j of them suffice |
| Overflow.PushedOutNamesPushOut | src/driver.rs:305-335 | names that were cached count too once they are pushed out, so fewer uncached ones can suffice |
| Overflow.ListingDowngrades | src/driver.rs:305-335 | for every capacity from 2, a listing of two children after which a resolved entry has lost its extents |
| Driver.ApfsDriver.GetFileInfo | src/driver.rs:377-403 | reply for every state, field by field; contents unchanged |
| CacheMachine.ExtentsAreNeverLost | src/driver.rs:197-214 | in every interleaving on any volume: capacity respected, resolved entries are the volume's answers, every opened file has its real extents and size |
| CacheMachine.ResolvedStaysResolved | src/driver.rs:305-335 | a resolved entry disappears only by eviction and is never replaced by another value |
| CacheMachine.SomeCallbackCanGoOn | src/driver.rs:140-403 | in every interleaving on any volume, while a callback has not returned some callback can go on |
| CacheMachine.RunIsTransparent | src/driver.rs:140-227 | on an agreeing volume, in every interleaving and eviction pattern, every finished callback gave the reply without cache |
| CacheTransparency.LruStoreIsARun | src/driver.rs:97-99 | a store into the recency list is a run of the concurrent machine: one eviction at most, from a full cache, then the store |
| CacheTransparency.LruFillIsARun | src/driver.rs:306-335 | so is each round of a listing |
| CacheTransparency.StatMismatchShows | src/driver.rs:377-403 | on any volume, a path on which stat and stat_and_extents differ leads to a wrong get_file_info, without eviction |
| CacheTransparency.ListingMismatchShows | src/driver.rs:299-336 | on any volume, a listed child that does not resolve, or is no directory where the entry says so or vice versa, leads to a wrong get_security_by_name, without eviction if the listing fits |
| CacheTransparency.CacheIsTransparentIffConsistent | src/driver.rs:93-99 | for every catalog, over all runs, the cache never changes a reply if and only if the catalog is consistent: with eviction at any time, only from a full cache, or never if every directory fits |
| CacheTransparency.RootSizeShows | src/driver.rs:377-403 | a root directory with a size is enough for a wrong reply |
| RecencyList.OpenThenAsk | src/driver.rs:188-403 | open then get_file_info on a new driver is answered from the cache as these calls leave it |
| RecencyList.ListThenAsk | src/driver.rs:140-336 | so is open, read_directory, then get_security_by_name |
| RecencyList.ListedIsCached | src/driver.rs:305-335 | of the last capacity children listed, each that was not cached before is cached as listed |
| RecencyList.DisagreeingChildIsAnsweredWrongly | src/driver.rs:140-403 | with the recency list as it is, any disagreeing child among the last 4096 of a directory of any size gives a wrong reply to one of the two sequences |
| RecencyList.RealCacheIsTransparentIffConsistent | src/driver.rs:93-99 | with directories of at most 4096 entries, no such sequence ever gets a wrong reply if and only if the catalog is consistent |
| Structures.NumberOfBytes | src/disk.rs:180-185 | reading back a little-endian number gives the number |
| Structures.LittleEndian | src/disk.rs:180-185 | fields are read least significant byte first |
| Structures.SearchBtreeNode | src/disk.rs:275-319 | for nodes of any length, the address at the least offset 72, 80, 88, … with matching OID and plausible address, an error exactly when there is none |
| Structures.FirstHitIsUnique | src/disk.rs:275-319 | there is one such address at most |
| Structures.ReadApfsContainerSize | src/disk.rs:171-188 | block count times block size as stored in the superblock; on a behaving device it fails only if the superblock is not on the disk |
| Structures.ReadVolumeCounters | src/disk.rs:242-271 | the last step: what the node's first hit leads to; on a behaving device failure means it leads nowhere |
| Structures.ReadThroughObjectMap | src/disk.rs:228-243 | the middle step, from the object map address on, in the same terms |
| Structures.ReadApfsVolumeSpace | src/disk.rs:191-272 | success yields the pair the walk leads to; on a behaving device failure means the walk leads nowhere |
| Structures.WalkIsFunctional | src/disk.rs:191-272 | the walk leads to one pair at most |
| Images.FieldReadsBack | src/disk.rs:201-221 | of pairwise disjoint little-endian fields written over any disk, each is read back as written |
| Images.NodeScanFindsEntry | src/disk.rs:275-319 | the scan finds the entry written into a node, if nothing in front of it is a hit |
| Images.NoKeyInFront | src/disk.rs:285-316 | that is so if no word in front of it was the volume's number before |
| Images.ContainerReadsBack | src/disk.rs:191-272 | a container written over any disk leads the walk to exactly its two counters |
| Images.ContainerReadsBackBehindOffset | src/disk.rs:384 | the same behind any partition offset |
| Images.ReadWrittenContainer | src/disk.rs:191-272 | running the walk on such a disk returns the container's own counters or an error, and on a behaving device always the counters |
| Keys.KeyTextIsInjective | src/mount_manager.rs:31 | the text key determines disk and partition number |
| Mounts.KeyIdentifies | src/mount_manager.rs:31 | two partitions share a table entry exactly if disk and partition number agree |
| Mounts.MountManager.OpenDriver | src/driver.rs:54-74 | two handles stay open on success, none after a failure at any stage |
| Mounts.MountManager.MountPartition | src/mount_manager.rs:26-67 | table and handles after success or failure at any stage; a replaced volume is closed |
| Mounts.MountManager.UnmountPartition | src/mount_manager.rs:69-78 | the volume goes with exactly its two handles |
| Mounts.MountManager.DropAll | src/mount_manager.rs:15-17 | dropping the manager closes the handles of every volume |
| Mounts.AllHandlesSplit | src/mount_manager.rs:72-75 | the handles of the table are those of one volume and those of the rest |
| Letters.FindAvailableDriveLetters | src/device_monitor.rs:171-195 | the free letters from D to Z in order |
| Letters.FreeAreExactlyUntaken | src/device_monitor.rs:171-195 | a letter is reported exactly when it is in D to Z and not taken |
| Letters.FirstIsLeast | src/main.rs:222-224 | the letter taken is the least free one |
| Letters.FreeIsSorted | src/device_monitor.rs:171-195 | each letter is reported once, in alphabetical order |
| Reconciler.Daemon.ScanAndUpdate | src/main.rs:210-251 | the whole new state as a function of the old state, the scan and the outside |
| Reconciler.UnmountOneMore | src/main.rs:238-245 | unmounting is partition by partition and order does not matter |
| Attempts.KnownIffCanMount | src/main.rs:218-235 | whatever fails: after the mounting loop a partition is known if and only if it was before, or at one of its places in the list a letter was free and its own attempt succeeds |
| Attempts.ScanKnowsIff | src/main.rs:210-251 | after the scan, exactly those of them that were scanned |
| Attempts.MountAllAppend | src/main.rs:218-235 | the mounting loop goes on over the rest of the list from whatever its front left |
| Attempts.FailuresDoNotMatter | src/main.rs:225-233 | leaving out every failing attempt changes neither what is mounted nor at which letters |
| Attempts.NewVolumeIsAsScanned | src/main.rs:218-235 | a new volume is the scanned partition at the letter offered then |
| Attempts.SurvivorsKeepTheirVolume | src/main.rs:219-245 | a partition scanned again keeps its volume, letter and handles |
| Attempts.OfferIsLeast | src/main.rs:222-224 | the letter offered is the least that is neither mounted nor taken |
| Convergence.ReconcileKeepsInv | src/main.rs:210-251 | one scan with any failures and duplicates keeps known partitions equal to mounted ones, letters distinct, handles exact, and leaves only scanned partitions |
| Convergence.EveryRunKeepsInv | src/main.rs:169-251 | in every reachable state: known is mounted, pairwise distinct letters in D to Z, at most 23 mounts, exactly two open handles per mount |
| Scans.FirstScanLeavesASuffix | src/main.rs:218-235 | the first scan leaves unmounted only a suffix of the list, and only when no letter is left |
| Scans.SecondScanConverges | src/main.rs:210-251 | after the second scan every partition is mounted or no letter is free |
| Scans.ThirdScanChangesNothing | src/main.rs:210-251 | a third scan changes nothing |
| Scans.OneMountedIsReachable | src/main.rs:210-235 | the state used next is where the daemon's first scan leads |
| Scans.OneScanIsNotEnough | src/main.rs:237-245 | a reachable state in which one scan does not converge, because letters are freed after the mounting loop |
| OneScan.MountAllConserves | src/main.rs:218-235 | the mounting loop turns each free letter it takes into one known partition |
| OneScan.AllMountedIffEnoughLetters | src/main.rs:218-235 | it mounts everything if and only if the new partitions do not outnumber the free letters |
| OneScan.OneScanIsEnoughIff | src/main.rs:210-251 | a second scan would change nothing if and only if that holds or every letter of a volume that went away is claimed by another process |
| DaemonLoop.RunDaemonInternal | src/main.rs:169-208 | over every schedule: scans made, exit, state, and no open handle after exit |
| DaemonLoop.StartKnowsIff | src/main.rs:181 | before the first event one scan has been made, and what could be mounted is |
| DaemonLoop.StartMountsAll | src/main.rs:181 | with successful mounts and enough letters, all partitions present at the start are mounted before the first event |
| DaemonLoop.ExitsIffDrained | src/main.rs:183-205 | for every schedule after the signal: the loop has exited if and only if on some turn k the events queued and arrived so far are at most k |
| DaemonLoop.ExitsAfterOneScanPerEvent | src/main.rs:183-205 | it exits on the first such turn with one scan for each event that had arrived, in order |
| DaemonLoop.BusyTurnsScan | src/main.rs:183-205 | while there is no such turn, each turn scans the event that has waited longest |
| DaemonLoop.ExitsIffDrainedAfterSignal | src/main.rs:183-205 | the same for schedules that begin before the signal |
| DaemonLoop.DrainsThenExits | src/main.rs:183-205 | in particular, when no event arrives after the signal: one scan per queued event, and exit exactly on the turn after the last |
| DaemonLoop.BusyLoopNeverExits | src/main.rs:183-205 | and while every turn brings an event, shutdown is never looked at |
| Watcher.StepIsSafe | src/device_watcher.rs:87-133 | every step keeps: no use after free, one release, queue equals the events sent |
| Watcher.WatcherIsSafe | src/device_watcher.rs:36-133 | in every interleaving: no use after free, freed exactly once on both paths, events in send order |
| Watcher.ChannelHoldsWhatWasSent | src/device_watcher.rs:104-114 | in every run one event per callback that sent an arrival or a removal, in order of sending and of its kind |
| Watcher.FailureCanFinish | src/device_watcher.rs:69-76 | a failed registration ends with the sender freed once as well |
| Watcher.DropCanFinish | src/device_watcher.rs:116-133 | from any state of unregistering, the callbacks in flight can finish and the sender is freed once |
| Watcher.WithoutWaitSenderIsMisused | src/device_watcher.rs:118-123 | without the wait of unregistering a callback touches the freed sender |
| Service.RunService | src/service.rs:104-188 | at most 120 StartPending reports with checkpoints 1, 2, 3, …, then exactly the reports and exit of the case at hand |
| Service.OneHundredTwentyRoundsHappen | src/service.rs:122-160 | 120 rounds are reached |
| Service.OutsideDecides | src/service.rs:104-188 | clock, initialisation and status answers decide rounds, reports and exit |
| Service.ReportsTell | src/service.rs:104-188 | which statuses are reported exactly when, and what each exit means |

## Left out

- Concurrency and callbacks (`Interleaving`, `CacheMachine`, `Watcher`) are state machines over values; they do not model the Rust objects in place, only their steps.
- ApfsDriver is one object in the source; its read path is modelled by the methods of `FileRead` over a `DiskReader`, its metadata callbacks by the class in `Driver.dfy`.
- FileRead.Read: extent maps with overlapping extents are outside the claim about contents; the vendored crate never builds one (`TilingIsSound`).
- Disk.DiskReader.Read: the file pointer after a failed read is unspecified, as the code does not restore it.
- Extents.BuildExtentMap: starts from decoded extents; reading them from the catalog B-tree, and the logical addresses stored there (which the crate ignores), are not part of this model.
- Driver.ApfsDriver.ReadDirectory: only the first call on a handle and its cache effect; the directory buffer handed to WinFsp, and the empty answer to a continuation marker, are not modelled.
- CacheTransparency.CacheIsTransparentIffConsistent: for directories of 4096 entries and more the wrong replies are shown by runs that evict some entry of a full cache; what the real recency list does is in `RecencyList`, for children among the last 4096. Directory records are taken to have distinct, non-empty names without slashes.
- RecencyList.RealCacheIsTransparentIffConsistent: directories of more than 4096 entries are not part of it, because a child listed early is gone again when the listing ends.
- Catalog.ResolvePath: record names, values, inodes and extents are what the B-tree lookups of the crate answer; the B-trees themselves are not part of this model.
- Structures.SearchBtreeNode: a scan for a plausible word, as in the code; its relation to a real B-tree lookup is not stated because there is none.
- Reconciler.Daemon.ScanAndUpdate: starts from the partitions found; `scan_apfs_partitions`, its GPT filter and its short-lived disk handles are not part of this model.
- Changes of a partition's offset or size under the same key: the reconciler does not look at them either.
- `DiskReader` knows no partition length, so the stream over a partition ends where the device ends, also for `SeekFrom::End`.
- Extents whose addresses overflow 64 bits (`Fits`, `Addressed`) are outside the claims about built maps; the crate's own arithmetic wraps on them.
- `get_volume_info`, security descriptors, paths before the backslash replacement, and the internals of the `lru` crate (not in the repository): the cache is a plain recency list of capacity 4096.
- The branch of the daemon loop for a disconnected event channel: the watcher holds a sender as long as the loop runs.
- Service control events: `Interrogate` sends the shutdown signal just like `Stop` in the code; the daemon loop only sees a signal.
- Command line, logging, installation, manual mount, DLL path set-up, error texts: no property beyond plumbing.
