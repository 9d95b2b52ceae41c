/**
 Wrong replies of the driver itself, with its recency list: what it answers after calls that a client
 can make one after the other (src/driver.rs). No eviction is chosen here; the cache does what it does.
 */
module RecencyList {
  import opened Volume
  import opened StatCache
  import opened CacheEffects
  import opened Overflow
  import opened Driver
  import opened Catalog
  import opened CacheTransparency

  lemma {:induction false} StoredAreNames(held: seq<string>, capacity: nat, names: seq<string>, path: string)
    requires path in Stored(held, capacity, names)
    ensures path in names
    decreases |names|
  {
    var cached := names[0] in Front(held, capacity);
    if path != names[0] || cached {
      StoredAreNames(if cached then held else [names[0]] + held, capacity, names[1..], path);
    }
  }

  /** A listing caches nothing but its children. */
  lemma OthersStayOut(slots: seq<Slot>, capacity: nat, dir: string, entries: seq<DirEntry>, path: string)
    requires Cache(slots, capacity) && path !in Contents(slots) && path !in Names(dir, entries)
    ensures path !in Contents(AfterListing(slots, capacity, dir, entries))
  {
    if path in Contents(AfterListing(slots, capacity, dir, entries)) {
      ListingContents(slots, Keys(slots), capacity, dir, entries, path);
      StoredAreNames(Keys(slots), capacity, Names(dir, entries), path);
    }
  }

  /** A listing that is too short to reach an entry's position leaves it as it is. */
  lemma RecentStays(slots: seq<Slot>, capacity: nat, dir: string, entries: seq<DirEntry>, j: nat)
    requires Cache(slots, capacity) && j < |slots| && j + |entries| < capacity
    ensures var after := Contents(AfterListing(slots, capacity, dir, entries));
            slots[j].0 in after && after[slots[j].0] == slots[j].1
  {
    var held, names, path := Keys(slots), Names(dir, entries), slots[j].0;
    SlotIsContents(slots, j);
    StoredIsShort(held, capacity, names);
    StillInFront(Stored(held, capacity, names), held, capacity, j, path);
    ListingOrder(slots, held, capacity, dir, entries);
    InKeys(AfterListing(slots, capacity, dir, entries), path);
    ListingContents(slots, held, capacity, dir, entries, path);
    StoredIffPushedOut(held, capacity, names, j, path);
    forall i: nat
      ensures !PushedOutAt(held, capacity, names, j, path, i)
    {
      if i < |names| {
        StoredIsShort(held, capacity, names[..i]);
      }
    }
  }

  lemma {:induction false} ListingAppend(slots: seq<Slot>, capacity: nat, dir: string, a: seq<DirEntry>,
                                         b: seq<DirEntry>)
    ensures AfterListing(slots, capacity, dir, a + b)
         == AfterListing(AfterListing(slots, capacity, dir, a), capacity, dir, b)
    decreases |a|
  {
    if a == [] {
      assert a + b == b;
    } else {
      assert (a + b)[0] == a[0] && (a + b)[1..] == a[1..] + b;
      ListingAppend(AfterChild(slots, capacity, ChildPath(dir, a[0].name), a[0]), capacity, dir, a[1..], b);
    }
  }

  /** A round that finds its child missing puts it in front. */
  lemma ChildComesFirst(slots: seq<Slot>, capacity: nat, child: string, e: DirEntry)
    requires Cache(slots, capacity) && child !in Contents(slots)
    ensures var after := AfterChild(slots, capacity, child, e);
            Cache(after, capacity) && after != [] && after[0] == (child, ListedEntry(e))
  {
    InKeys(slots, child);
    RoundContents(slots, Keys(slots), capacity, child, e, child);
    RoundOrder(slots, Keys(slots), capacity, child, e);
  }

  /** A round for a child that is missing, and the rounds behind it, if they are fewer than `capacity`. */
  lemma RoundsFrom(slots: seq<Slot>, capacity: nat, dir: string, e: DirEntry, late: seq<DirEntry>)
    requires Cache(slots, capacity) && ChildPath(dir, e.name) !in Contents(slots) && |late| < capacity
    ensures var after, child := Contents(AfterListing(slots, capacity, dir, [e] + late)), ChildPath(dir, e.name);
            child in after && after[child] == ListedEntry(e)
  {
    ChildComesFirst(slots, capacity, ChildPath(dir, e.name), e);
    RecentStays(AfterChild(slots, capacity, ChildPath(dir, e.name), e), capacity, dir, late, 0);
    assert ([e] + late)[1..] == late;
  }

  lemma ListingKeepsCache(slots: seq<Slot>, capacity: nat, dir: string, entries: seq<DirEntry>)
    requires Cache(slots, capacity)
    ensures Cache(AfterListing(slots, capacity, dir, entries), capacity)
  {
    ListingOrder(slots, Keys(slots), capacity, dir, entries);
  }

  lemma NotListedEarly(dir: string, entries: seq<DirEntry>, i: nat)
    requires i < |entries| && FirstUnderPath(dir, entries, i)
    ensures ChildPath(dir, entries[i].name) !in Names(dir, entries[..i])
  {
    var names := Names(dir, entries[..i]);
    forall k | 0 <= k < |names|
      ensures names[k] != ChildPath(dir, entries[i].name)
    {
      assert names[k] == ChildPath(dir, entries[k].name);
    }
  }

  lemma ListedBetween(slots: seq<Slot>, capacity: nat, dir: string, early: seq<DirEntry>, e: DirEntry,
                      late: seq<DirEntry>)
    requires Cache(slots, capacity) && |late| < capacity
    requires ChildPath(dir, e.name) !in Contents(slots) && ChildPath(dir, e.name) !in Names(dir, early)
    ensures var after := Contents(AfterListing(slots, capacity, dir, early + ([e] + late)));
            ChildPath(dir, e.name) in after && after[ChildPath(dir, e.name)] == ListedEntry(e)
  {
    var before := AfterListing(slots, capacity, dir, early);
    ListingKeepsCache(slots, capacity, dir, early);
    OthersStayOut(slots, capacity, dir, early, ChildPath(dir, e.name));
    RoundsFrom(before, capacity, dir, e, late);
    ListingAppend(slots, capacity, dir, early, [e] + late);
  }

  lemma SplitEntries(entries: seq<DirEntry>, i: nat)
    requires i < |entries|
    ensures entries[..i] + ([entries[i]] + entries[i + 1..]) == entries
  {
  }

  /** Of the last `capacity` children listed, each that was not cached before is cached as listed. */
  lemma ListedIsCached(slots: seq<Slot>, capacity: nat, dir: string, entries: seq<DirEntry>, i: nat)
    requires Cache(slots, capacity) && i < |entries| && |entries| - i <= capacity
    requires FirstUnderPath(dir, entries, i) && ChildPath(dir, entries[i].name) !in Contents(slots)
    ensures var after, child := Contents(AfterListing(slots, capacity, dir, entries)), ChildPath(dir, entries[i].name);
            child in after && after[child] == ListedEntry(entries[i])
  {
    NotListedEarly(dir, entries, i);
    ListedBetween(slots, capacity, dir, entries[..i], entries[i], entries[i + 1..]);
    SplitEntries(entries, i);
  }

  // ---- Calls in sequence ----------------------------------------------------------------------------

  /** The cache of a new driver after open and read_directory. */
  function OpenedAndListed(v: Volume, dir: string): seq<Slot> {
    var slots := AfterOpen(v, [], STAT_CACHE_CAPACITY, dir);
    match v.list(dir)
    case None => slots
    case Some(entries) => AfterListing(slots, STAT_CACHE_CAPACITY, dir, entries)
  }

  /** A client opens a path and asks for its file information. */
  method OpenThenAsk(v: Volume, path: string) returns (reply: Reply)
    ensures reply == Answer(v, Contents(AfterOpen(v, [], STAT_CACHE_CAPACITY, path)), GetInfo(path))
  {
    var driver := new ApfsDriver(v);
    var _ := driver.Open(path);
    reply := driver.GetFileInfo(path);
  }

  /** A client opens a directory, reads it, and looks a path up by name. */
  method ListThenAsk(v: Volume, dir: string, path: string) returns (reply: Reply)
    ensures reply == Answer(v, Contents(OpenedAndListed(v, dir)), Security(path))
  {
    var driver := new ApfsDriver(v);
    var _ := driver.Open(dir);
    var _ := driver.ReadDirectory(dir);
    reply := driver.GetSecurityByName(path);
  }

  lemma OpenedIsCached(v: Volume, path: string)
    requires v.statExt(path).Some?
    ensures AfterOpen(v, [], STAT_CACHE_CAPACITY, path) == [(path, ResolvedEntry(v.statExt(path).value))]
  {
  }

  lemma OpenThenAskIsWrong(v: Volume, path: string)
    requires !StatsAgree(v, path)
    ensures Answer(v, Contents(AfterOpen(v, [], STAT_CACHE_CAPACITY, path)), GetInfo(path)) != Direct(v, GetInfo(path))
  {
    OpenedIsCached(v, path);
  }

  /** A wrong child among the last 4096 of a directory is answered from its entry. */
  lemma ListThenAskIsWrong(v: Volume, dir: string, i: nat)
    requires v.statExt(dir).Some? && v.list(dir).Some? && i < |v.list(dir).value|
    requires v.list(dir).value[i].name != "" && FirstUnderPath(dir, v.list(dir).value, i)
    requires |v.list(dir).value| - i <= STAT_CACHE_CAPACITY
    requires WrongChild(v, ChildPath(dir, v.list(dir).value[i].name), v.list(dir).value[i])
    ensures var child := ChildPath(dir, v.list(dir).value[i].name);
            Answer(v, Contents(OpenedAndListed(v, dir)), Security(child)) != Direct(v, Security(child))
  {
    var child := ChildPath(dir, v.list(dir).value[i].name);
    assert |child| > |dir| && |child| >= 2;
    OpenedIsCached(v, dir);
    ContentsKeys([(dir, ResolvedEntry(v.statExt(dir).value))], child);
    ListedIsCached(AfterOpen(v, [], STAT_CACHE_CAPACITY, dir), STAT_CACHE_CAPACITY, dir, v.list(dir).value, i);
  }

  /**
   A disagreeing child among the last 4096 of a directory that opens gives a wrong reply to one of these
   two sequences of calls; so if no directory has more entries, only consistency hides the real cache.
   */
  lemma DisagreeingChildIsAnsweredWrongly(c: Catalog, dir: string, i: nat)
    requires WellNamed(c) && ResolvedOf(c, dir).Some? && ListOf(c, dir).Some? && i < |ListOf(c, dir).value|
    requires |ListOf(c, dir).value| - i <= STAT_CACHE_CAPACITY
    requires var e := ListOf(c, dir).value[i]; !ChildAgrees(c, dir, Child(e.oid, e.kind))
    ensures var v, child := Present(c), ChildPath(dir, ListOf(c, dir).value[i].name);
            || Answer(v, Contents(OpenedAndListed(v, dir)), Security(child)) != Direct(v, Security(child))
            || Answer(v, Contents(AfterOpen(v, [], STAT_CACHE_CAPACITY, child)), GetInfo(child))
               != Direct(v, GetInfo(child))
  {
    var v, e := Present(c), ListOf(c, dir).value[i];
    var child := ChildPath(dir, e.name);
    ListedChildResolves(c, dir, i);
    if WrongChild(v, child, e) {
      ListedPathsAreDistinct(c, dir, i);
      ListThenAskIsWrong(v, dir, i);
    } else {
      StatsAgreeIffSizeZero(c, child);
      OpenThenAskIsWrong(v, child);
    }
  }

  /** Neither sequence of calls ever gets a wrong reply. */
  ghost predicate CallsAreDirect(v: Volume) {
    && (forall path ::
          Answer(v, Contents(AfterOpen(v, [], STAT_CACHE_CAPACITY, path)), GetInfo(path)) == Direct(v, GetInfo(path)))
    && (forall dir, path :: v.statExt(dir).Some? ==>
          Answer(v, Contents(OpenedAndListed(v, dir)), Security(path)) == Direct(v, Security(path)))
  }

  lemma SoundCacheAnswersDirect(v: Volume, cache: map<string, CachedStat>, req: Request)
    requires Agrees(v) && CacheSound(v, cache)
    ensures Answer(v, cache, req) == Direct(v, req)
  {
    if !req.List? && Hits(req, cache) && !(req.Security? && IsRoot(req.path)) {
      HitIsDirect(v, req, cache);
    }
  }

  lemma {:induction false} ListingKeepsSound(v: Volume, slots: seq<Slot>, capacity: nat, dir: string, n: nat)
    requires Agrees(v) && v.statExt(dir).Some? && v.list(dir).Some? && n <= |v.list(dir).value|
    requires Cache(slots, capacity) && CacheSound(v, Contents(slots))
    ensures CacheSound(v, Contents(AfterListing(slots, capacity, dir, v.list(dir).value[n..])))
    decreases |v.list(dir).value| - n
  {
    var entries := v.list(dir).value;
    if n < |entries| {
      var child := ChildPath(dir, entries[n].name);
      var after := AfterChild(slots, capacity, child, entries[n]);
      assert entries[n..][0] == entries[n] && entries[n..][1..] == entries[n + 1..];
      ListedIsSound(v, dir, n);
      LookupIsContents(slots, child);
      InsertIsEvictThenStore(slots, capacity, child, ListedEntry(entries[n]));
      ListingKeepsSound(v, after, capacity, dir, n + 1);
    }
  }

  lemma ConsistentCallsAreDirect(v: Volume)
    requires Agrees(v)
    ensures CallsAreDirect(v)
  {
    forall path
      ensures CacheSound(v, Contents(AfterOpen(v, [], STAT_CACHE_CAPACITY, path)))
    {
      if v.statExt(path).Some? {
        OpenedIsCached(v, path);
      }
    }
    forall path
      ensures Answer(v, Contents(AfterOpen(v, [], STAT_CACHE_CAPACITY, path)), GetInfo(path))
           == Direct(v, GetInfo(path))
    {
      SoundCacheAnswersDirect(v, Contents(AfterOpen(v, [], STAT_CACHE_CAPACITY, path)), GetInfo(path));
    }
    forall dir, path | v.statExt(dir).Some?
      ensures Answer(v, Contents(OpenedAndListed(v, dir)), Security(path)) == Direct(v, Security(path))
    {
      OpenedIsCached(v, dir);
      if v.list(dir).Some? {
        ListingKeepsSound(v, AfterOpen(v, [], STAT_CACHE_CAPACITY, dir), STAT_CACHE_CAPACITY, dir, 0);
        assert v.list(dir).value[0..] == v.list(dir).value;
      }
      SoundCacheAnswersDirect(v, Contents(OpenedAndListed(v, dir)), Security(path));
    }
  }

  /** No directory has more entries than the cache. */
  ghost predicate DirectoriesFit(c: Catalog) {
    forall dir :: ListOf(c, dir).Some? ==> |ListOf(c, dir).value| <= STAT_CACHE_CAPACITY
  }

  /**
   With the real recency list: if no directory has more than 4096 entries, two or three calls in
   sequence are enough to tell whether the catalog is consistent, and on a consistent one nothing shows.
   */
  lemma RealCacheIsTransparentIffConsistent(c: Catalog)
    requires WellNamed(c) && DirectoriesFit(c)
    ensures CallsAreDirect(Present(c)) <==> Consistent(c)
  {
    if Consistent(c) {
      AgreesIffConsistent(c);
      ConsistentCallsAreDirect(Present(c));
    } else if path :| !DirectorySizeIsZero(c, path) {
      StatsAgreeIffSizeZero(c, path);
      OpenThenAskIsWrong(Present(c), path);
    } else {
      var dir :| !ChildrenAgree(c, dir);
      var i :| 0 <= i < |ListOf(c, dir).value| &&
        !ChildAgrees(c, dir, Child(ListOf(c, dir).value[i].oid, ListOf(c, dir).value[i].kind));
      DisagreeingChildIsAnsweredWrongly(c, dir, i);
    }
  }
}
