/**
 The volume as the vendored apfs crate presents it (vendor/apfs/src/lib.rs, vendor/apfs/src/catalog.rs):
 stat, stat_and_extents and list_directory all answer from one catalog of directory records, inodes and
 file extents. When its answers agree, and that listing a directory and resolving its children's paths
 lead to the same records.
 */
module Catalog {
  import opened Basics
  import opened Extents
  import opened FileTime
  import opened Volume
  import opened Paths

  const ROOT_DIR_RECORD: u64 := 2

  /** What a directory record says of its child. */
  datatype Child = Child(fileId: u64, kind: Kind)

  /** A directory record: its name and value may each fail to decode. */
  datatype Record = Record(name: Option<string>, child: Option<Child>)

  datatype Inode = Inode(privateId: u64, kind: Kind, size: u64, createTime: i64, modifyTime: i64,
                         uid: u32, gid: u32, mode: nat, nlink: u32)

  /** The records under each directory, inodes by file id, and extent maps by private id; each lookup may fail. */
  datatype Catalog = Catalog(
    records: u64 -> Option<seq<Record>>,
    inode: u64 -> Option<Inode>,
    extents: u64 -> Option<seq<Extent>>)

  // ---- resolve_path and list_directory ------------------------------------------------------------

  /** lookup_drec: the first record with this name, if its value decodes. */
  function Find(records: seq<Record>, name: string): Option<Child> {
    if records == [] then None
    else if records[0].name == Some(name) then records[0].child
    else Find(records[1..], name)
  }

  /** The first record with this name stands at i. */
  predicate FirstNamed(records: seq<Record>, name: string, i: nat) {
    i < |records| && records[i].name == Some(name) && forall k :: 0 <= k < i ==> records[k].name != Some(name)
  }

  predicate Unnamed(records: seq<Record>, name: string) {
    forall i :: 0 <= i < |records| ==> records[i].name != Some(name)
  }

  /** The first record with the name decides; without one there is nothing. */
  lemma {:induction false} FindIsFirstNamed(records: seq<Record>, name: string)
    ensures forall i: nat :: FirstNamed(records, name, i) ==> Find(records, name) == records[i].child
    ensures Unnamed(records, name) ==> Find(records, name) == None
    ensures !Unnamed(records, name) ==> exists i: nat :: FirstNamed(records, name, i)
    decreases |records|
  {
    if records != [] {
      var rest := records[1..];
      FindIsFirstNamed(rest, name);
      if records[0].name == Some(name) {
        assert FirstNamed(records, name, 0);
      } else {
        forall i: nat
          ensures FirstNamed(records, name, i) <==> i > 0 && FirstNamed(rest, name, i - 1)
        {
          FirstNamedRest(records, name, i);
        }
        if i: nat :| FirstNamed(rest, name, i) {
          assert FirstNamed(records, name, i + 1);
        } else {
          assert Unnamed(rest, name);
          assert forall i :: 1 <= i < |records| ==> records[i] == rest[i - 1];
        }
      }
    }
  }

  lemma FirstNamedRest(records: seq<Record>, name: string, i: nat)
    requires records != [] && records[0].name != Some(name)
    ensures FirstNamed(records, name, i) <==> i > 0 && FirstNamed(records[1..], name, i - 1)
  {
    if i > 0 && FirstNamed(records[1..], name, i - 1) {
      assert forall k :: 1 <= k < i ==> records[k] == records[1..][k - 1];
    }
  }

  function FindIn(c: Catalog, dir: u64, name: string): Option<Child> {
    match c.records(dir)
    case None => None
    case Some(records) => Find(records, name)
  }

  /** The record at the end of these components; every one in front of it must be a directory record. */
  function Walk(c: Catalog, dir: u64, components: seq<string>): Option<Child>
    requires components != []
    decreases |components|
  {
    match FindIn(c, dir, components[0])
    case None => None
    case Some(child) =>
      if |components| == 1 then Some(child)
      else if child.kind != Directory then None
      else Walk(c, child.fileId, components[1..])
  }

  function InodeOf(c: Catalog, fileId: u64): Option<(u64, Inode)> {
    match c.inode(fileId)
    case None => None
    case Some(inode) => Some((fileId, inode))
  }

  /** What resolve_path answers. */
  function Resolve(c: Catalog, path: string): Option<(u64, Inode)> {
    var components := Components(path);
    if components == [] then InodeOf(c, ROOT_DIR_RECORD)
    else match Walk(c, ROOT_DIR_RECORD, components)
      case None => None
      case Some(child) => InodeOf(c, child.fileId)
  }

  // ---- What a path means, without the walk ----------------------------------------------------------

  /** In the directory under this file id, the first record named `name` is for this child. */
  ghost predicate NamesChild(c: Catalog, dir: u64, name: string, child: Child) {
    c.records(dir).Some? && exists i: nat ::
      FirstNamed(c.records(dir).value, name, i) && c.records(dir).value[i].child == Some(child)
  }

  lemma FindInIffNames(c: Catalog, dir: u64, name: string, child: Child)
    ensures FindIn(c, dir, name) == Some(child) <==> NamesChild(c, dir, name, child)
  {
    if c.records(dir).Some? {
      var records := c.records(dir).value;
      FindIsFirstNamed(records, name);
      if FindIn(c, dir, name) == Some(child) {
        var i: nat :| FirstNamed(records, name, i);
        assert records[i].child == Some(child);
      }
    }
  }

  /** Component k names child k in the directory that child k - 1 is, and all but the last are directory records. */
  ghost predicate LinkAt(c: Catalog, dir: u64, components: seq<string>, chain: seq<Child>, k: nat)
    requires k < |chain| == |components|
  {
    && NamesChild(c, if k == 0 then dir else chain[k - 1].fileId, components[k], chain[k])
    && (k < |chain| - 1 ==> chain[k].kind == Directory)
  }

  ghost predicate IsChain(c: Catalog, dir: u64, components: seq<string>, chain: seq<Child>) {
    |chain| == |components| && forall k :: 0 <= k < |chain| ==> LinkAt(c, dir, components, chain, k)
  }

  lemma LinkRest(c: Catalog, dir: u64, components: seq<string>, chain: seq<Child>, k: nat)
    requires k + 1 < |chain| == |components|
    ensures LinkAt(c, dir, components, chain, k + 1)
       <==> LinkAt(c, chain[0].fileId, components[1..], chain[1..], k)
  {
    var rest, names := chain[1..], components[1..];
    assert rest[k] == chain[k + 1] && names[k] == components[k + 1];
    assert k > 0 ==> rest[k - 1] == chain[k];
  }

  lemma ChainStep(c: Catalog, dir: u64, components: seq<string>, chain: seq<Child>)
    requires |components| > 1 && |chain| == |components|
    ensures IsChain(c, dir, components, chain)
       <==> LinkAt(c, dir, components, chain, 0) && IsChain(c, chain[0].fileId, components[1..], chain[1..])
  {
    forall k | 0 <= k < |chain| - 1
      ensures LinkAt(c, dir, components, chain, k + 1)
         <==> LinkAt(c, chain[0].fileId, components[1..], chain[1..], k)
    {
      LinkRest(c, dir, components, chain, k);
    }
    if LinkAt(c, dir, components, chain, 0) && IsChain(c, chain[0].fileId, components[1..], chain[1..]) {
      forall k | 0 <= k < |chain|
        ensures LinkAt(c, dir, components, chain, k)
      {
        if k > 0 {
          assert LinkAt(c, chain[0].fileId, components[1..], chain[1..], k - 1);
        }
      }
    }
  }

  lemma {:induction false} WalkHasChain(c: Catalog, dir: u64, components: seq<string>) returns (chain: seq<Child>)
    requires components != [] && Walk(c, dir, components).Some?
    ensures IsChain(c, dir, components, chain) && chain[|chain| - 1] == Walk(c, dir, components).value
    decreases |components|
  {
    var child := FindIn(c, dir, components[0]).value;
    FindInIffNames(c, dir, components[0], child);
    if |components| == 1 {
      chain := [child];
    } else {
      var rest := WalkHasChain(c, child.fileId, components[1..]);
      chain := [child] + rest;
      assert chain[1..] == rest;
      ChainStep(c, dir, components, chain);
    }
  }

  lemma {:induction false} ChainIsWalked(c: Catalog, dir: u64, components: seq<string>, chain: seq<Child>)
    requires components != [] && IsChain(c, dir, components, chain)
    ensures Walk(c, dir, components) == Some(chain[|chain| - 1])
    decreases |components|
  {
    assert LinkAt(c, dir, components, chain, 0);
    FindInIffNames(c, dir, components[0], chain[0]);
    if |components| > 1 {
      ChainStep(c, dir, components, chain);
      ChainIsWalked(c, chain[0].fileId, components[1..], chain[1..]);
    }
  }

  /** The path leads to this file id: the root's, or that of the last child of a chain from the root. */
  ghost predicate LeadsTo(c: Catalog, path: string, id: u64) {
    var components := Components(path);
    if components == [] then id == ROOT_DIR_RECORD
    else exists chain: seq<Child> :: IsChain(c, ROOT_DIR_RECORD, components, chain) && chain[|chain| - 1].fileId == id
  }

  /** resolve_path yields exactly the inode at the end of the path's chain of names. */
  lemma ResolvesIffLeadsTo(c: Catalog, path: string, id: u64, inode: Inode)
    ensures Resolve(c, path) == Some((id, inode)) <==> LeadsTo(c, path, id) && c.inode(id) == Some(inode)
  {
    var components := Components(path);
    if components != [] {
      if Walk(c, ROOT_DIR_RECORD, components).Some? {
        var chain := WalkHasChain(c, ROOT_DIR_RECORD, components);
      }
      if LeadsTo(c, path, id) {
        var chain: seq<Child> :| IsChain(c, ROOT_DIR_RECORD, components, chain) && chain[|chain| - 1].fileId == id;
        ChainIsWalked(c, ROOT_DIR_RECORD, components, chain);
      }
    }
  }

  /** The component loop of resolve_path. */
  method ResolvePath(c: Catalog, path: string) returns (r: Option<(u64, Inode)>)
    ensures r == Resolve(c, path)
  {
    var components := Components(path);
    if components == [] {
      return InodeOf(c, ROOT_DIR_RECORD);
    }
    var currentParent := ROOT_DIR_RECORD;
    for i := 0 to |components|
      invariant i < |components|
      invariant Walk(c, ROOT_DIR_RECORD, components) == Walk(c, currentParent, components[i..])
    {
      var child := FindIn(c, currentParent, components[i]);
      if child == None {
        return None;
      }
      if i == |components| - 1 {
        return InodeOf(c, child.value.fileId);
      }
      if child.value.kind != Directory {
        return None;
      }
      assert components[i..][1..] == components[i + 1..];
      currentParent := child.value.fileId;
    }
  }

  function StatOf(fileId: u64, inode: Inode): Stat {
    Stat(fileId, inode.kind, inode.size, inode.createTime, inode.modifyTime, inode.uid, inode.gid, inode.mode,
         inode.nlink)
  }

  /** Kind and number come from the record; size and times from the inode, or are 0 if it cannot be read. */
  function ListedChild(c: Catalog, name: string, child: Child): DirEntry {
    match c.inode(child.fileId)
    case None => DirEntry(name, child.fileId, child.kind, 0, 0, 0)
    case Some(inode) => DirEntry(name, child.fileId, child.kind, inode.size, inode.createTime, inode.modifyTime)
  }

  /** Records that do not decode are left out of a listing. */
  function ListedRecord(c: Catalog, record: Record): seq<DirEntry> {
    if record.name.Some? && record.child.Some? then [ListedChild(c, record.name.value, record.child.value)] else []
  }

  function Listing(c: Catalog, records: seq<Record>): seq<DirEntry> {
    if records == [] then [] else ListedRecord(c, records[0]) + Listing(c, records[1..])
  }

  /** How many of these records decode. */
  function Decodable(records: seq<Record>): nat {
    if records == [] then 0
    else (if records[0].name.Some? && records[0].child.Some? then 1 else 0) + Decodable(records[1..])
  }

  lemma {:induction false} ListingIsComplete(c: Catalog, records: seq<Record>)
    ensures |Listing(c, records)| == Decodable(records)
    decreases |records|
  {
    if records != [] {
      ListingIsComplete(c, records[1..]);
    }
  }

  lemma {:induction false} ListingAppend(c: Catalog, a: seq<Record>, b: seq<Record>)
    ensures Listing(c, a + b) == Listing(c, a) + Listing(c, b)
    decreases |a|
  {
    if a == [] {
      assert a + b == b;
    } else {
      assert (a + b)[0] == a[0] && (a + b)[1..] == a[1..] + b;
      ListingAppend(c, a[1..], b);
    }
  }

  /** Every record that decodes is listed, behind exactly those in front of it that do. */
  lemma RecordIsListed(c: Catalog, records: seq<Record>, j: nat)
    requires j < |records| && records[j].name.Some? && records[j].child.Some?
    ensures Decodable(records[..j]) < |Listing(c, records)| == Decodable(records)
    ensures var e := Listing(c, records)[Decodable(records[..j])];
            && e.name == records[j].name.value && e.oid == records[j].child.value.fileId
            && e.kind == records[j].child.value.kind
            && match c.inode(e.oid)
               case None => e.size == 0 && e.createTime == 0 && e.modifyTime == 0
               case Some(inode) =>
                 e.size == inode.size && e.createTime == inode.createTime && e.modifyTime == inode.modifyTime
  {
    ListingIsComplete(c, records);
    ListingIsComplete(c, records[..j]);
    assert records == records[..j] + records[j..];
    ListingAppend(c, records[..j], records[j..]);
    ListingStep(c, records, j);
  }

  lemma ListingStep(c: Catalog, records: seq<Record>, i: nat)
    requires i < |records|
    ensures Listing(c, records[i..]) == ListedRecord(c, records[i]) + Listing(c, records[i + 1..])
  {
    assert records[i..][1..] == records[i + 1..];
  }

  /** The loop of list_directory. */
  method ListRecords(c: Catalog, records: seq<Record>) returns (entries: seq<DirEntry>)
    ensures entries == Listing(c, records)
  {
    entries := [];
    assert records[0..] == records;
    for i := 0 to |records|
      invariant entries + Listing(c, records[i..]) == Listing(c, records)
    {
      ListingStep(c, records, i);
      if records[i].name.Some? && records[i].child.Some? {
        entries := entries + [ListedChild(c, records[i].name.value, records[i].child.value)];
      }
    }
  }

  /** The file id under which a directory's records are found; the root's inode is not looked at. */
  function DirectoryId(c: Catalog, dir: string): Option<u64> {
    if IsRoot(dir) then Some(ROOT_DIR_RECORD)
    else match Resolve(c, dir)
      case None => None
      case Some((id, inode)) => if inode.kind == Directory then Some(id) else None
  }

  function ListOf(c: Catalog, dir: string): Option<seq<DirEntry>> {
    match DirectoryId(c, dir)
    case None => None
    case Some(id) =>
      match c.records(id)
      case None => None
      case Some(records) => Some(Listing(c, records))
  }

  /** stat_and_extents: a directory has no extents and file size 0. */
  function ResolvedOf(c: Catalog, path: string): Option<Resolved> {
    match Resolve(c, path)
    case None => None
    case Some((id, inode)) =>
      if inode.kind == Directory then Some(Resolved(StatOf(id, inode), [], 0))
      else match c.extents(inode.privateId)
        case None => None
        case Some(ext) => Some(Resolved(StatOf(id, inode), ext, inode.size))
  }

  function Present(c: Catalog): Volume {
    Volume((path: string) => match Resolve(c, path) case None => None case Some((id, inode)) => Some(StatOf(id, inode)),
           (path: string) => ResolvedOf(c, path),
           (dir: string) => ListOf(c, dir))
  }

  // ---- Listing a child and resolving its path -----------------------------------------------------

  /** Within a directory names are keys: distinct; and they are components. */
  ghost predicate NamesAreKeys(records: seq<Record>) {
    && (forall i, j :: 0 <= i < j < |records| && records[i].name.Some? ==> records[i].name != records[j].name)
    && (forall i :: 0 <= i < |records| && records[i].name.Some? ==>
          records[i].name.value != "" && '/' !in records[i].name.value)
  }

  ghost predicate WellNamed(c: Catalog) {
    forall id :: c.records(id).Some? ==> NamesAreKeys(c.records(id).value)
  }

  /** The file id under which resolve_path looks for the children of a path. */
  function ParentId(c: Catalog, dir: string): Option<u64> {
    var components := Components(dir);
    if components == [] then Some(ROOT_DIR_RECORD)
    else match Walk(c, ROOT_DIR_RECORD, components)
      case None => None
      case Some(child) => if child.kind == Directory then Some(child.fileId) else None
  }

  lemma {:induction false} WalkAppend(c: Catalog, dir: u64, components: seq<string>, name: string)
    requires components != []
    ensures Walk(c, dir, components + [name])
         == match Walk(c, dir, components)
            case None => None
            case Some(child) => if child.kind == Directory then FindIn(c, child.fileId, name) else None
    decreases |components|
  {
    var more := components + [name];
    assert more[0] == components[0] && more[1..] == components[1..] + [name];
    if |components| == 1 {
      assert more[1..] == [name];
    } else if FindIn(c, dir, components[0]).Some? {
      WalkAppend(c, FindIn(c, dir, components[0]).value.fileId, components[1..], name);
    }
  }

  /** A child's path leads to the first record with its name under the directory's file id. */
  lemma ChildResolves(c: Catalog, dir: string, name: string)
    requires '/' !in name && name != ""
    ensures Resolve(c, ChildPath(dir, name))
         == match ParentId(c, dir)
            case None => None
            case Some(id) =>
              match FindIn(c, id, name)
              case None => None
              case Some(child) => InodeOf(c, child.fileId)
  {
    ChildComponents(dir, name);
    var components := Components(dir);
    if components == [] {
      assert [] + [name] == [name];
    } else {
      WalkAppend(c, ROOT_DIR_RECORD, components, name);
    }
  }

  /** Under a directory a name that no record carries resolves to nothing, whatever else is there. */
  lemma AbsentChildIsNotFound(c: Catalog, dir: string, name: string)
    requires '/' !in name && name != ""
    requires forall id :: ParentId(c, dir) == Some(id) && c.records(id).Some? ==> Unnamed(c.records(id).value, name)
    ensures Resolve(c, ChildPath(dir, name)) == None
  {
    ChildResolves(c, dir, name);
    if ParentId(c, dir).Some? && c.records(ParentId(c, dir).value).Some? {
      FindIsFirstNamed(c.records(ParentId(c, dir).value).value, name);
    }
  }

  /** With distinct names it is found exactly if some record holds the name and the child. */
  lemma FindIffHeld(records: seq<Record>, name: string, child: Child)
    requires NamesAreKeys(records)
    ensures Find(records, name) == Some(child) <==> Record(Some(name), Some(child)) in records
  {
    FindIsFirstNamed(records, name);
    if Find(records, name) == Some(child) {
      var i: nat :| FirstNamed(records, name, i);
      assert records[i] == Record(Some(name), Some(child));
    }
    if j :| 0 <= j < |records| && records[j] == Record(Some(name), Some(child)) {
      FindsRecord(records, j);
    }
  }

  /** A directory that can be listed and whose path leads on is the same directory both times. */
  lemma ListedIsParent(c: Catalog, dir: string)
    requires ListOf(c, dir).Some? && ParentId(c, dir).Some?
    ensures DirectoryId(c, dir) == ParentId(c, dir)
  {
    if IsRoot(dir) {
      RootHasNoComponents(dir);
    }
  }

  lemma {:induction false} ListedHasRecord(c: Catalog, records: seq<Record>, i: nat) returns (j: nat)
    requires i < |Listing(c, records)|
    ensures j < |records| && records[j].name == Some(Listing(c, records)[i].name) && records[j].child.Some?
    ensures Listing(c, records)[i] == ListedChild(c, records[j].name.value, records[j].child.value)
    decreases |records|
  {
    var listed := records[0].name.Some? && records[0].child.Some?;
    if listed && i == 0 {
      j := 0;
    } else {
      j := ListedHasRecord(c, records[1..], if listed then i - 1 else i);
      j := j + 1;
    }
  }

  lemma {:induction false} FindsRecord(records: seq<Record>, j: nat)
    requires NamesAreKeys(records) && j < |records| && records[j].name.Some?
    ensures Find(records, records[j].name.value) == records[j].child
    decreases |records|
  {
    if j > 0 {
      assert records[0].name != records[j].name;
      FindsRecord(records[1..], j - 1);
    }
  }

  /** What resolve_path finds behind a listed child: the inode under the listed number, or nothing. */
  lemma ListedChildResolves(c: Catalog, dir: string, i: nat)
    requires WellNamed(c) && ListOf(c, dir).Some? && i < |ListOf(c, dir).value|
    ensures var e := ListOf(c, dir).value[i];
            && e.name != "" && '/' !in e.name && e == ListedChild(c, e.name, Child(e.oid, e.kind))
            && Resolve(c, ChildPath(dir, e.name)) == if ParentId(c, dir).Some? then InodeOf(c, e.oid) else None
  {
    var records := c.records(DirectoryId(c, dir).value).value;
    var j := ListedHasRecord(c, records, i);
    assert NamesAreKeys(records);
    FindsRecord(records, j);
    ChildResolves(c, dir, Listing(c, records)[i].name);
    if ParentId(c, dir).Some? {
      ListedIsParent(c, dir);
    }
  }

  // ---- When the answers agree -----------------------------------------------------------------------

  /** The child can be reached and read, record and inode agree on what it is, and a directory's size is 0. */
  predicate ChildAgrees(c: Catalog, dir: string, child: Child) {
    ParentId(c, dir).Some? &&
    match c.inode(child.fileId)
    case None => false
    case Some(inode) =>
      if inode.kind == Directory then child.kind == Directory && inode.size == 0
      else child.kind != Directory && c.extents(inode.privateId).Some?
  }

  lemma InfoDiffers(a: Stat, b: Stat, m: u64, n: u64)
    requires (a.kind == Directory) != (b.kind == Directory) || m != n
    ensures Info(a, m) != Info(b, n)
  {
    assert Info(a, m).attributes == Attributes(a.kind) && Info(a, m).fileSize == m;
    assert Info(b, n).attributes == Attributes(b.kind) && Info(b, n).fileSize == n;
  }

  /**
   Every entry the crate lists, whether or not its inode can be read, is truthful exactly when the
   child's path leads to it, its inode and extents can be read, the directory record and the inode agree
   on being a directory, and a directory's inode size is 0.
   */
  lemma ListedChildTruthfulIff(c: Catalog, dir: string, i: nat)
    requires WellNamed(c) && ListOf(c, dir).Some? && i < |ListOf(c, dir).value|
    ensures var e := ListOf(c, dir).value[i];
            Truthful(Present(c), ChildPath(dir, e.name), e) <==> ChildAgrees(c, dir, Child(e.oid, e.kind))
  {
    ListedChildResolves(c, dir, i);
    var e := ListOf(c, dir).value[i];
    var r := ResolvedOf(c, ChildPath(dir, e.name));
    if r.Some? {
      var inode := c.inode(e.oid).value;
      if (inode.kind == Directory) != (e.kind == Directory) || e.size != r.value.fileSize {
        InfoDiffers(EntryStat(e), r.value.stat, e.size, r.value.fileSize);
      }
    }
  }

  /** If the path leads to a directory, its inode says size 0. */
  predicate DirectorySizeIsZero(c: Catalog, path: string) {
    Resolve(c, path).Some? && Resolve(c, path).value.1.kind == Directory ==> Resolve(c, path).value.1.size == 0
  }

  /** stat and stat_and_extents agree on a path exactly when it is no directory with a size other than 0. */
  lemma StatsAgreeIffSizeZero(c: Catalog, path: string)
    ensures StatsAgree(Present(c), path) <==> DirectorySizeIsZero(c, path)
  {
    if Resolve(c, path).Some? {
      var (id, inode) := Resolve(c, path).value;
      if inode.kind == Directory && inode.size != 0 {
        InfoDiffers(StatOf(id, inode), StatOf(id, inode), inode.size, 0);
      }
    }
  }

  /** All children listed under a path that can be opened agree. */
  ghost predicate ChildrenAgree(c: Catalog, dir: string) {
    ResolvedOf(c, dir).Some? && ListOf(c, dir).Some? ==>
      forall i :: 0 <= i < |ListOf(c, dir).value| ==>
        ChildAgrees(c, dir, Child(ListOf(c, dir).value[i].oid, ListOf(c, dir).value[i].kind))
  }

  /** What the cache asks of a catalog. */
  ghost predicate Consistent(c: Catalog) {
    (forall path :: DirectorySizeIsZero(c, path)) && (forall dir :: ChildrenAgree(c, dir))
  }

  lemma ListingAgreesIff(c: Catalog, dir: string)
    requires WellNamed(c)
    ensures ListingAgrees(Present(c), dir) <==> ChildrenAgree(c, dir)
  {
    if ListOf(c, dir).Some? {
      forall i | 0 <= i < |ListOf(c, dir).value|
        ensures var e := ListOf(c, dir).value[i];
                Truthful(Present(c), ChildPath(dir, e.name), e) <==> ChildAgrees(c, dir, Child(e.oid, e.kind))
      {
        ListedChildTruthfulIff(c, dir, i);
      }
    }
  }

  /** Listings and stats agree if and only if the catalog is consistent. */
  lemma AgreesIffConsistent(c: Catalog)
    requires WellNamed(c)
    ensures Agrees(Present(c)) <==> Consistent(c)
  {
    forall path
      ensures StatsAgree(Present(c), path) <==> DirectorySizeIsZero(c, path)
    {
      StatsAgreeIffSizeZero(c, path);
    }
    forall dir
      ensures ListingAgrees(Present(c), dir) <==> ChildrenAgree(c, dir)
    {
      ListingAgreesIff(c, dir);
    }
  }

  // ---- What the driver says of a path -----------------------------------------------------------------

  /** This file information is that inode's, with this size. */
  predicate IsInodeInfo(info: FileInfo, id: u64, inode: Inode, fileSize: u64) {
    && info.attributes == (if inode.kind == Directory then 0x10 else 0x1)
    && info.fileSize == fileSize && IsAllocation(info.allocationSize, fileSize)
    && Reports(info.creationTime, inode.createTime)
    && Reports(info.lastWriteTime, inode.modifyTime)
    && info.lastAccessTime == info.lastWriteTime == info.changeTime
    && info.indexNumber == id
  }

  /** get_file_info without the cache reports the inode at the end of the path. */
  lemma InfoIsInodes(c: Catalog, path: string, id: u64, inode: Inode)
    requires LeadsTo(c, path, id) && c.inode(id) == Some(inode)
    ensures var reply := Direct(Present(c), GetInfo(path));
            reply.InfoIs? && IsInodeInfo(reply.info, id, inode, inode.size)
  {
    ResolvesIffLeadsTo(c, path, id, inode);
    InfoDescribes(Info(StatOf(id, inode), inode.size), StatOf(id, inode), inode.size);
  }

  /** So does open, with the inode's extents for a file, and size 0 for a directory. */
  lemma OpenedIsInodes(c: Catalog, path: string, id: u64, inode: Inode)
    requires LeadsTo(c, path, id) && c.inode(id) == Some(inode)
    ensures var reply := Direct(Present(c), Open(path));
            if inode.kind == Directory then
              reply.Opened? && IsInodeInfo(reply.info, id, inode, 0) && reply.ext == [] && reply.fileSize == 0
            else if c.extents(inode.privateId).Some? then
              && reply.Opened? && IsInodeInfo(reply.info, id, inode, inode.size)
              && reply.ext == c.extents(inode.privateId).value && reply.fileSize == inode.size
            else reply == Failed(0xC0000034)
  {
    ResolvesIffLeadsTo(c, path, id, inode);
    var size := if inode.kind == Directory then 0 else inode.size;
    InfoDescribes(Info(StatOf(id, inode), size), StatOf(id, inode), size);
  }

  /** A path that leads to no readable inode is not found. */
  lemma NothingThereIsNotFound(c: Catalog, path: string)
    requires forall id, inode :: LeadsTo(c, path, id) ==> c.inode(id) != Some(inode)
    ensures Direct(Present(c), GetInfo(path)) == Direct(Present(c), Open(path)) == Failed(0xC0000034)
  {
    if Resolve(c, path).Some? {
      var (id, inode) := Resolve(c, path).value;
      ResolvesIffLeadsTo(c, path, id, inode);
    }
  }

  /** The root is listed from its own records, whether or not its inode can be read. */
  lemma RootIsListed(c: Catalog)
    requires c.records(2).Some?
    ensures Direct(Present(c), List("/")) == Listed(Listing(c, c.records(2).value))
  {
  }
}
