/**
 The read-only volume as the driver sees it, the answers the driver gives WinFsp, and what those
 answers would be without the stat cache.
 */
module Volume {
  import opened Basics
  import opened Extents
  import opened FileTime

  datatype Kind = File | Directory | Symlink

  datatype Stat = Stat(oid: u64, kind: Kind, size: u64, createTime: i64, modifyTime: i64,
                       uid: u32, gid: u32, mode: nat, nlink: u32)

  datatype DirEntry = DirEntry(name: string, oid: u64, kind: Kind, size: u64, createTime: i64, modifyTime: i64)

  /** The answer of stat_and_extents. */
  datatype Resolved = Resolved(stat: Stat, ext: seq<Extent>, fileSize: u64)

  /** An immutable ApfsVolume: each query may fail, and always answers alike. */
  datatype Volume = Volume(
    stat: string -> Option<Stat>,
    statExt: string -> Option<Resolved>,
    list: string -> Option<seq<DirEntry>>)

  // ---- What WinFsp is told -------------------------------------------------------------------

  const ATTRIBUTE_READONLY: u32 := 0x1
  const ATTRIBUTE_DIRECTORY: u32 := 0x10
  const STATUS_NOT_FOUND: u32 := 0xC0000034
  const STATUS_NOT_A_DIRECTORY: u32 := 0xC0000103

  datatype FileInfo = FileInfo(attributes: u32, fileSize: u64, allocationSize: u64, creationTime: u64,
                               lastAccessTime: u64, lastWriteTime: u64, changeTime: u64, indexNumber: u64)

  function Attributes(kind: Kind): u32 {
    if kind == Directory then ATTRIBUTE_DIRECTORY else ATTRIBUTE_READONLY
  }

  /** fill_file_info. */
  function Info(stat: Stat, fileSize: u64): FileInfo {
    var modified := DriverFileTime(stat.modifyTime);
    FileInfo(Attributes(stat.kind), fileSize, AllocationSize(fileSize), DriverFileTime(stat.createTime),
             modified, modified, modified, stat.oid)
  }

  /** The least multiple of 4096 that holds the file, or 0 where the sum overflows. */
  predicate IsAllocation(a: u64, size: u64) {
    if size + 4095 < TWO64 then a % 4096 == 0 && size <= a < size + 4096 else a == 0
  }

  /** What a client may rely on: each field and what it is about. */
  predicate Describes(info: FileInfo, stat: Stat, fileSize: u64) {
    && info.attributes == (if stat.kind == Directory then 0x10 else 0x1)
    && info.fileSize == fileSize && IsAllocation(info.allocationSize, fileSize)
    && Reports(info.creationTime, stat.createTime)
    && Reports(info.lastWriteTime, stat.modifyTime)
    && info.lastAccessTime == info.lastWriteTime == info.changeTime
    && info.indexNumber == stat.oid
  }

  /** fill_file_info is the only description. */
  lemma InfoDescribes(info: FileInfo, stat: Stat, fileSize: u64)
    ensures info == Info(stat, fileSize) <==> Describes(info, stat, fileSize)
  {
    FileTimeReports(stat.createTime, info.creationTime);
    FileTimeReports(stat.modifyTime, info.lastWriteTime);
    FileTimeReports(stat.createTime, Info(stat, fileSize).creationTime);
    FileTimeReports(stat.modifyTime, Info(stat, fileSize).lastWriteTime);
    AllocationIsUnique(fileSize, info.allocationSize);
  }

  lemma AllocationIsUnique(size: u64, a: u64)
    ensures IsAllocation(a, size) <==> a == AllocationSize(size)
  {
    AllocationIsLeastMultiple(size, a);
  }

  /** Creation times show in the creation time alone, the earlier one as the earlier. */
  lemma CreationTimeShowsAlone(stat: Stat, t: i64, fileSize: u64)
    ensures var a, b := Info(stat, fileSize), Info(stat.(createTime := t), fileSize);
            && b == a.(creationTime := b.creationTime)
            && (t <= stat.createTime ==> b.creationTime <= a.creationTime)
            && (t <= stat.createTime - 200 ==> b.creationTime < a.creationTime)
  {
    FileTimeReports(stat.createTime, Info(stat, fileSize).creationTime);
    FileTimeReports(t, Info(stat.(createTime := t), fileSize).creationTime);
  }

  /** Modification times show in the other three times, the earlier one as the earlier. */
  lemma ModificationTimeShowsAlone(stat: Stat, t: i64, fileSize: u64)
    ensures var a, b := Info(stat, fileSize), Info(stat.(modifyTime := t), fileSize);
            && b == a.(lastAccessTime := b.lastWriteTime, lastWriteTime := b.lastWriteTime,
                       changeTime := b.lastWriteTime)
            && (t <= stat.modifyTime ==> b.lastWriteTime <= a.lastWriteTime)
            && (t <= stat.modifyTime - 200 ==> b.lastWriteTime < a.lastWriteTime)
  {
    FileTimeReports(stat.modifyTime, Info(stat, fileSize).lastWriteTime);
    FileTimeReports(t, Info(stat.(modifyTime := t), fileSize).lastWriteTime);
  }

  datatype Request =
    | Security(path: string)   // get_security_by_name
    | Open(path: string)       // open
    | List(path: string)       // read_directory, first call on a handle
    | GetInfo(path: string)    // get_file_info

  datatype Reply =
    | Failed(status: u32)
    | SecurityIs(attributes: u32)
    | Opened(info: FileInfo, ext: seq<Extent>, fileSize: u64)
    | Listed(entries: seq<DirEntry>)
    | InfoIs(info: FileInfo)

  predicate IsRoot(path: string) {
    path == "/" || path == ""
  }

  /** The reply with the cache removed. */
  function Direct(v: Volume, req: Request): Reply {
    match req
    case Security(path) =>
      if IsRoot(path) then SecurityIs(ATTRIBUTE_DIRECTORY)
      else (match v.statExt(path)
            case None => Failed(STATUS_NOT_FOUND)
            case Some(r) => SecurityIs(Attributes(r.stat.kind)))
    case Open(path) =>
      (match v.statExt(path)
       case None => Failed(STATUS_NOT_FOUND)
       case Some(r) => Opened(Info(r.stat, r.fileSize), r.ext, r.fileSize))
    case List(path) =>
      (match v.list(path)
       case None => Failed(STATUS_NOT_A_DIRECTORY)
       case Some(entries) => Listed(entries))
    case GetInfo(path) =>
      (match v.stat(path)
       case None => Failed(STATUS_NOT_FOUND)
       case Some(stat) => InfoIs(Info(stat, stat.size)))
  }

  // ---- Cache entries -------------------------------------------------------------------------

  datatype CachedStat = CachedStat(stat: Stat, ext: seq<Extent>, fileSize: u64, resolved: bool)

  function ResolvedEntry(r: Resolved): CachedStat {
    CachedStat(r.stat, r.ext, r.fileSize, true)
  }

  function EntryStat(e: DirEntry): Stat {
    Stat(e.oid, e.kind, e.size, e.createTime, e.modifyTime, 0, 0, 0, 1)
  }

  /** A listing knows no extents. */
  function ListedEntry(e: DirEntry): CachedStat {
    CachedStat(EntryStat(e), [], e.size, false)
  }

  function ChildPath(dir: string, name: string): string {
    if IsRoot(dir) then "/" + name else dir + "/" + name
  }

  /** open takes an entry from the cache only if its extents are known or not needed. */
  predicate Usable(c: CachedStat) {
    c.resolved || c.stat.kind == Directory
  }

  /** The reply the code gives from a cache entry; for Open the entry must be usable. */
  function FromCache(req: Request, c: CachedStat): Reply
    requires !req.List?
  {
    match req
    case Security(_) => SecurityIs(Attributes(c.stat.kind))
    case Open(_) => Opened(Info(c.stat, c.fileSize), c.ext, c.fileSize)
    case GetInfo(_) => InfoIs(Info(c.stat, c.fileSize))
  }

  /** The branch on a cache lookup. */
  predicate Hits(req: Request, cache: map<string, CachedStat>)
    requires !req.List?
  {
    req.path in cache && (req.Open? ==> Usable(cache[req.path]))
  }

  /** The reply of a callback that finds the cache in this state. */
  function Answer(v: Volume, cache: map<string, CachedStat>, req: Request): Reply {
    if !req.List? && Hits(req, cache) && !(req.Security? && IsRoot(req.path)) then FromCache(req, cache[req.path])
    else Direct(v, req)
  }

  /** A reply to open that describes this file and hands out these extents. */
  predicate OpenedAs(reply: Reply, stat: Stat, ext: seq<Extent>, fileSize: u64) {
    reply.Opened? && Describes(reply.info, stat, fileSize) && reply.ext == ext && reply.fileSize == fileSize
  }

  function DirectoryBit(kind: Kind): Reply {
    SecurityIs(if kind == Directory then 0x10 else 0x1)
  }

  /** What each callback must reply when it finds the cache like this. */
  predicate IsReply(v: Volume, cache: map<string, CachedStat>, req: Request, reply: Reply) {
    match req
    case Security(path) =>
      if path == "/" || path == "" then reply == SecurityIs(0x10)
      else if path in cache then reply == DirectoryBit(cache[path].stat.kind)
      else if v.statExt(path).Some? then reply == DirectoryBit(v.statExt(path).value.stat.kind)
      else reply == Failed(0xC0000034)
    case Open(path) =>
      if path in cache && (cache[path].resolved || cache[path].stat.kind == Directory)
      then OpenedAs(reply, cache[path].stat, cache[path].ext, cache[path].fileSize)
      else if v.statExt(path).Some?
      then OpenedAs(reply, v.statExt(path).value.stat, v.statExt(path).value.ext, v.statExt(path).value.fileSize)
      else reply == Failed(0xC0000034)
    case List(path) =>
      if v.list(path).Some? then reply == Listed(v.list(path).value) else reply == Failed(0xC0000103)
    case GetInfo(path) =>
      if path in cache then reply.InfoIs? && Describes(reply.info, cache[path].stat, cache[path].fileSize)
      else if v.stat(path).Some?
      then reply.InfoIs? && Describes(reply.info, v.stat(path).value, v.stat(path).value.size)
      else reply == Failed(0xC0000034)
  }

  lemma AnswerIsReply(v: Volume, cache: map<string, CachedStat>, req: Request)
    ensures IsReply(v, cache, req, Answer(v, cache, req))
  {
    match Answer(v, cache, req)
    case Opened(info, _, fileSize) =>
      var stat := if Hits(req, cache) then cache[req.path].stat else v.statExt(req.path).value.stat;
      InfoDescribes(info, stat, fileSize);
    case InfoIs(info) =>
      if req.path in cache {
        InfoDescribes(info, cache[req.path].stat, cache[req.path].fileSize);
      } else {
        InfoDescribes(info, v.stat(req.path).value, v.stat(req.path).value.size);
      }
    case _ =>
  }

  // ---- When listings and stats tell the same story ---------------------------------------------

  /** stat and stat_and_extents describe a file alike. */
  ghost predicate StatsAgree(v: Volume, path: string) {
    match v.statExt(path)
    case None => true
    case Some(r) => v.stat(path).Some? && Info(v.stat(path).value, v.stat(path).value.size) == Info(r.stat, r.fileSize)
  }

  /** A directory entry describes the child as stat_and_extents would, and promises no extents it cannot have. */
  ghost predicate Truthful(v: Volume, path: string, e: DirEntry) {
    match v.statExt(path)
    case None => false
    case Some(r) => Info(EntryStat(e), e.size) == Info(r.stat, r.fileSize) && (e.kind == Directory ==> r.ext == [])
  }

  ghost predicate ListingAgrees(v: Volume, dir: string) {
    v.statExt(dir).Some? && v.list(dir).Some? ==>
      forall i :: 0 <= i < |v.list(dir).value| ==>
        Truthful(v, ChildPath(dir, v.list(dir).value[i].name), v.list(dir).value[i])
  }

  ghost predicate Agrees(v: Volume) {
    (forall path :: StatsAgree(v, path)) && (forall dir :: ListingAgrees(v, dir))
  }

  /** An entry that gives no wrong answer. */
  ghost predicate EntrySound(v: Volume, path: string, c: CachedStat) {
    match v.statExt(path)
    case None => false
    case Some(r) => Info(c.stat, c.fileSize) == Info(r.stat, r.fileSize) && (Usable(c) ==> c.ext == r.ext)
  }

  ghost predicate CacheSound(v: Volume, cache: map<string, CachedStat>) {
    forall path :: path in cache ==> EntrySound(v, path, cache[path])
  }

  /** A hit on a sound entry is the direct reply. */
  lemma HitIsDirect(v: Volume, req: Request, cache: map<string, CachedStat>)
    requires Agrees(v) && CacheSound(v, cache) && !req.List? && Hits(req, cache)
    requires req.Security? ==> !IsRoot(req.path)
    ensures FromCache(req, cache[req.path]) == Direct(v, req)
  {
    assert StatsAgree(v, req.path);
    var c, r := cache[req.path], v.statExt(req.path).value;
    assert Info(c.stat, c.fileSize).attributes == Info(r.stat, r.fileSize).attributes;
    assert Info(c.stat, c.fileSize).fileSize == Info(r.stat, r.fileSize).fileSize;
  }

  lemma ListedIsSound(v: Volume, dir: string, i: nat)
    requires Agrees(v) && v.statExt(dir).Some? && v.list(dir).Some? && i < |v.list(dir).value|
    ensures var e := v.list(dir).value[i]; EntrySound(v, ChildPath(dir, e.name), ListedEntry(e))
  {
    assert ListingAgrees(v, dir);
  }
}
