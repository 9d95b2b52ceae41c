/** What the metadata callbacks of src/driver.rs do to the stat cache, and what they must keep. */
module CacheEffects {
  import opened Basics
  import opened Volume
  import opened StatCache

  /** A resolved entry is what the volume says, whether or not listings agree with it. */
  ghost predicate ResolvedExact(v: Volume, cache: map<string, CachedStat>) {
    forall path :: path in cache && cache[path].resolved ==>
      v.statExt(path).Some? && cache[path] == ResolvedEntry(v.statExt(path).value)
  }

  /** No resolved entry that is still cached has become unresolved. */
  ghost predicate NeverDowngrades(before: map<string, CachedStat>, after: map<string, CachedStat>) {
    forall path :: path in before && path in after && before[path].resolved ==> after[path].resolved
  }

  /** A file that is handed out carries its own extents and size, never a listing's empty map. */
  ghost predicate FileIsComplete(v: Volume, path: string, reply: Reply) {
    reply.Opened? && reply.info.attributes != ATTRIBUTE_DIRECTORY ==>
      v.statExt(path).Some? && reply.ext == v.statExt(path).value.ext &&
      reply.fileSize == v.statExt(path).value.fileSize
  }

  /** Everything cached before is cached still, unchanged. */
  ghost predicate Extends(before: map<string, CachedStat>, after: map<string, CachedStat>) {
    forall path :: path in before ==> path in after && after[path] == before[path]
  }

  // ---- The cache after each callback --------------------------------------------------------------

  function AfterSecurity(v: Volume, slots: seq<Slot>, capacity: nat, path: string): seq<Slot> {
    if IsRoot(path) then slots
    else if Lookup(slots, path).Some? then Touch(slots, path)
    else match v.statExt(path)
      case None => slots
      case Some(r) => Insert(slots, capacity, path, ResolvedEntry(r))
  }

  /** An unusable hit is touched and then replaced. */
  function AfterOpen(v: Volume, slots: seq<Slot>, capacity: nat, path: string): seq<Slot> {
    var cached := Lookup(slots, path);
    if cached.Some? && Usable(cached.value) then Touch(slots, path)
    else match v.statExt(path)
      case None => Touch(slots, path)
      case Some(r) => Insert(Touch(slots, path), capacity, path, ResolvedEntry(r))
  }

  /** A listing puts the children that are not cached, in order. */
  function AfterListing(slots: seq<Slot>, capacity: nat, dir: string, entries: seq<DirEntry>): seq<Slot>
    decreases |entries|
  {
    if entries == [] then slots
    else
      var after := AfterChild(slots, capacity, ChildPath(dir, entries[0].name), entries[0]);
      AfterListing(after, capacity, dir, entries[1..])
  }

  function AfterChild(slots: seq<Slot>, capacity: nat, child: string, e: DirEntry): seq<Slot> {
    if Lookup(slots, child).Some? then slots else Insert(slots, capacity, child, ListedEntry(e))
  }

  // ---- What open and get_security_by_name leave behind ------------------------------------------------

  /** The entry a lookup or query yields becomes the most recent one; only a new one costs the last entry. */
  lemma UsedComesFirst(slots: seq<Slot>, capacity: nat, path: string, c: CachedStat)
    requires Distinct(slots) && |slots| <= capacity && capacity > 0
    ensures Insert(slots, capacity, path, c) == [(path, c)] + Cut(Without(slots, path), capacity - 1)
    ensures Lookup(slots, path) == Some(c) ==>
              Touch(slots, path) == [(path, c)] + Cut(Without(slots, path), capacity - 1)
  {
    if i :| 0 <= i < |slots| && slots[i].0 == path {
      WithoutAt(slots, i);
    } else {
      WithoutMissing(slots, path);
    }
  }

  lemma WithoutTouched(slots: seq<Slot>, path: string)
    requires Distinct(slots)
    ensures Without(Touch(slots, path), path) == Without(slots, path)
  {
    if i :| 0 <= i < |slots| && slots[i].0 == path {
      WithoutAt(slots, i);
      TouchMovesToFront(slots, path);
      assert Touch(slots, path)[1..] == slots[..i] + slots[i + 1..];
    } else {
      WithoutMissing(slots, path);
    }
  }

  /** The entry that open uses: a cached one with extents or of a directory, else the volume's answer. */
  function UsedByOpen(v: Volume, slots: seq<Slot>, path: string): Option<CachedStat> {
    var cached := Lookup(slots, path);
    if cached.Some? && (cached.value.resolved || cached.value.stat.kind == Directory) then cached
    else match v.statExt(path)
      case None => None
      case Some(r) => Some(CachedStat(r.stat, r.ext, r.fileSize, true))
  }

  /** open leaves what it used in front, and fails without storing. */
  lemma OpenRemembers(v: Volume, slots: seq<Slot>, capacity: nat, path: string)
    requires Distinct(slots) && |slots| <= capacity && capacity > 0
    ensures AfterOpen(v, slots, capacity, path)
         == match UsedByOpen(v, slots, path)
            case None => Touch(slots, path)
            case Some(c) => [(path, c)] + Cut(Without(slots, path), capacity - 1)
  {
    TouchKeepsContents(slots, path);
    WithoutTouched(slots, path);
    var used := UsedByOpen(v, slots, path);
    if used.Some? {
      UsedComesFirst(slots, capacity, path, used.value);
      UsedComesFirst(Touch(slots, path), capacity, path, used.value);
    }
  }

  /** get_security_by_name leaves what it used in front, unless it is asked for the root. */
  lemma SecurityRemembers(v: Volume, slots: seq<Slot>, capacity: nat, path: string)
    requires Distinct(slots) && |slots| <= capacity && capacity > 0 && path != "/" && path != ""
    ensures AfterSecurity(v, slots, capacity, path)
         == if Lookup(slots, path).Some? then [(path, Lookup(slots, path).value)] + Without(slots, path)
            else if v.statExt(path) == None then slots
            else
              var r := v.statExt(path).value;
              [(path, CachedStat(r.stat, r.ext, r.fileSize, true))] + Cut(slots, capacity - 1)
  {
    LookupIsContents(slots, path);
    ContentsKeys(slots, path);
    if v.statExt(path).Some? {
      InsertPutsInFront(slots, capacity, path, ResolvedEntry(v.statExt(path).value));
    }
  }
}
