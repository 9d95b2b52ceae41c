/** src/driver.rs: the metadata callbacks of ApfsDriver, which answer through the stat cache. */
module Driver {
  import opened Basics
  import opened Volume
  import opened StatCache
  import opened CacheEffects
  import opened Overflow

  class ApfsDriver {
    const volume: Volume
    const statCache: LruCache

    ghost predicate Valid()
      reads this, statCache
    {
      statCache.Valid() && ResolvedExact(volume, statCache.View())
    }

    constructor (volume: Volume)
      ensures Valid() && fresh(statCache) && statCache.slots == []
      ensures this.volume == volume && statCache.capacity == STAT_CACHE_CAPACITY
    {
      this.volume := volume;
      statCache := new LruCache(STAT_CACHE_CAPACITY);
    }

    /** put_cached_stat with a fresh answer of stat_and_extents. */
    method Remember(path: string, r: Resolved)
      requires Valid() && volume.statExt(path) == Some(r)
      modifies statCache
      ensures Valid() && statCache.slots == Insert(old(statCache.slots), statCache.capacity, path, ResolvedEntry(r))
      ensures NeverDowngrades(old(statCache.View()), statCache.View())
      ensures CacheSound(volume, old(statCache.View())) ==> CacheSound(volume, statCache.View())
    {
      InsertIsEvictThenStore(statCache.slots, statCache.capacity, path, ResolvedEntry(r));
      statCache.Put(path, ResolvedEntry(r));
    }

    method GetSecurityByName(path: string) returns (reply: Reply)
      requires Valid()
      modifies statCache
      ensures Valid() && statCache.slots == AfterSecurity(volume, old(statCache.slots), statCache.capacity, path)
      ensures NeverDowngrades(old(statCache.View()), statCache.View())
      ensures reply == Answer(volume, old(statCache.View()), Security(path))
      ensures IsReply(volume, old(statCache.View()), Security(path), reply)
      ensures Agrees(volume) && CacheSound(volume, old(statCache.View())) ==>
                reply == Direct(volume, Security(path)) && CacheSound(volume, statCache.View())
    {
      AnswerIsReply(volume, statCache.View(), Security(path));
      if IsRoot(path) {
        return SecurityIs(ATTRIBUTE_DIRECTORY);
      }
      LookupIsContents(statCache.slots, path);
      var cached := statCache.Get(path);
      if cached.Some? {
        if Agrees(volume) && CacheSound(volume, statCache.View()) {
          HitIsDirect(volume, Security(path), statCache.View());
        }
        return SecurityIs(Attributes(cached.value.stat.kind));
      }
      var r := volume.statExt(path);
      if r == None {
        return Failed(STATUS_NOT_FOUND);
      }
      Remember(path, r.value);
      reply := SecurityIs(Attributes(r.value.stat.kind));
    }

    method Open(path: string) returns (reply: Reply)
      requires Valid()
      modifies statCache
      ensures Valid() && statCache.slots == AfterOpen(volume, old(statCache.slots), statCache.capacity, path)
      ensures NeverDowngrades(old(statCache.View()), statCache.View())
      ensures FileIsComplete(volume, path, reply)
      ensures reply == Answer(volume, old(statCache.View()), Request.Open(path))
      ensures IsReply(volume, old(statCache.View()), Request.Open(path), reply)
      ensures Agrees(volume) && CacheSound(volume, old(statCache.View())) ==>
                reply == Direct(volume, Request.Open(path)) && CacheSound(volume, statCache.View())
    {
      AnswerIsReply(volume, statCache.View(), Request.Open(path));
      LookupIsContents(statCache.slots, path);
      var cached := statCache.Get(path);
      var c: CachedStat;
      if cached.Some? && (cached.value.resolved || cached.value.stat.kind == Directory) {
        c := cached.value;
        if Agrees(volume) && CacheSound(volume, statCache.View()) {
          HitIsDirect(volume, Request.Open(path), statCache.View());
        }
      } else {
        var r := volume.statExt(path);
        if r == None {
          return Failed(STATUS_NOT_FOUND);
        }
        c := ResolvedEntry(r.value);
        Remember(path, r.value);
      }
      reply := Opened(Info(c.stat, c.fileSize), c.ext, c.fileSize);
    }

    /** One round of the listing loop: an entry that is cached already stays as it is. */
    method RememberChild(child: string, e: DirEntry)
      requires Valid()
      modifies statCache
      ensures Valid() && statCache.slots == AfterChild(old(statCache.slots), statCache.capacity, child, e)
      ensures |old(statCache.slots)| < statCache.capacity ==>
                |statCache.slots| <= |old(statCache.slots)| + 1 && Extends(old(statCache.View()), statCache.View())
      ensures EntrySound(volume, child, ListedEntry(e)) && CacheSound(volume, old(statCache.View())) ==>
                CacheSound(volume, statCache.View())
    {
      LookupIsContents(statCache.slots, child);
      var present := statCache.Contains(child);
      if !present {
        ContentsWithout(statCache.slots, child);
        InsertIsEvictThenStore(statCache.slots, statCache.capacity, child, ListedEntry(e));
        statCache.Put(child, ListedEntry(e));
      }
    }

    /** A directory of an agreeing volume is listed into a sound cache. */
    ghost predicate SoundListing(path: string, entries: seq<DirEntry>, cache: map<string, CachedStat>) {
      Agrees(volume) && volume.statExt(path).Some? && volume.list(path) == Some(entries) && CacheSound(volume, cache)
    }

    /** The filling block of a listing, in order. */
    method RememberChildren(path: string, entries: seq<DirEntry>)
      requires Valid()
      modifies statCache
      ensures Valid() && statCache.slots == AfterListing(old(statCache.slots), statCache.capacity, path, entries)
      ensures |old(statCache.slots)| + |entries| <= statCache.capacity ==>
                Extends(old(statCache.View()), statCache.View())
      ensures SoundListing(path, entries, old(statCache.View())) ==> CacheSound(volume, statCache.View())
    {
      ghost var start, before := statCache.slots, statCache.View();
      ghost var sound := SoundListing(path, entries, before);
      for i := 0 to |entries|
        invariant Valid()
        invariant AfterListing(statCache.slots, statCache.capacity, path, entries[i..])
               == AfterListing(start, statCache.capacity, path, entries)
        invariant |start| + |entries| <= statCache.capacity ==>
                    |statCache.slots| <= |start| + i && Extends(before, statCache.View())
        invariant sound ==> CacheSound(volume, statCache.View())
      {
        assert entries[i..][1..] == entries[i + 1..];
        if sound {
          ListedIsSound(volume, path, i);
        }
        RememberChild(ChildPath(path, entries[i].name), entries[i]);
      }
    }

    /**
     The first call on a directory handle: list, and remember the children that are not cached yet. The
     listing itself never comes from the cache. One that fits keeps every entry; one that overflows the
     cache can push out a resolved child before it reaches it, and keeps resolved entries resolved exactly
     when that happens to none.
     */
    method ReadDirectory(path: string) returns (reply: Reply)
      requires Valid()
      modifies statCache
      ensures Valid() && reply == Direct(volume, List(path))
      ensures IsReply(volume, old(statCache.View()), List(path), reply)
      ensures reply.Listed? ==>
                statCache.slots == AfterListing(old(statCache.slots), statCache.capacity, path, reply.entries)
      ensures !reply.Listed? ==> statCache.slots == old(statCache.slots)
      ensures reply.Listed? && |old(statCache.slots)| + |reply.entries| <= statCache.capacity ==>
                Extends(old(statCache.View()), statCache.View())
      ensures reply.Listed? ==>
                (NeverDowngrades(old(statCache.View()), statCache.View())
                 <==> forall j :: 0 <= j < |old(statCache.slots)| ==>
                        !LosesExtents(old(statCache.slots), statCache.capacity, Names(path, reply.entries), j))
      ensures Agrees(volume) && volume.statExt(path).Some? && CacheSound(volume, old(statCache.View())) ==>
                CacheSound(volume, statCache.View())
    {
      AnswerIsReply(volume, statCache.View(), List(path));
      var listed := volume.list(path);
      if listed == None {
        return Failed(STATUS_NOT_A_DIRECTORY);
      }
      ListingKeepsResolvedIff(statCache.slots, statCache.capacity, path, listed.value);
      RememberChildren(path, listed.value);
      reply := Listed(listed.value);
    }

    /** A miss asks the volume and stores nothing. */
    method GetFileInfo(path: string) returns (reply: Reply)
      requires Valid()
      modifies statCache
      ensures Valid() && statCache.slots == Touch(old(statCache.slots), path)
      ensures statCache.View() == old(statCache.View())
      ensures reply == Answer(volume, old(statCache.View()), GetInfo(path))
      ensures IsReply(volume, old(statCache.View()), GetInfo(path), reply)
      ensures Agrees(volume) && CacheSound(volume, old(statCache.View())) ==> reply == Direct(volume, GetInfo(path))
    {
      AnswerIsReply(volume, statCache.View(), GetInfo(path));
      var cached := statCache.Get(path);
      if cached.Some? {
        if Agrees(volume) && CacheSound(volume, statCache.View()) {
          HitIsDirect(volume, GetInfo(path), statCache.View());
        }
        return InfoIs(Info(cached.value.stat, cached.value.fileSize));
      }
      var stat := volume.stat(path);
      if stat == None {
        return Failed(STATUS_NOT_FOUND);
      }
      reply := InfoIs(Info(stat.value, stat.value.size));
    }
  }
}
