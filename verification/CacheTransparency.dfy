/**
 When the stat cache is invisible. On any volume whose listings and stats agree it is, in every
 interleaving and under any eviction (CacheMachine.RunIsTransparent); here is the converse for the
 volumes the vendored crate presents, by runs with a wrong reply in which the cache evicts nothing, or
 only when it is full.
 */
module CacheTransparency {
  import opened Basics
  import opened Volume
  import opened StatCache
  import opened CacheEffects
  import opened CacheMachine
  import opened Paths
  import opened Catalog

  /** When the cache may evict: the code's cache does so only when it is full. */
  datatype Eviction = Never | WhenFull | Anytime

  predicate Allowed(s: State, a: Action, ev: Eviction) {
    a.Evict? ==> ev == Anytime || (ev == WhenFull && |s.cache| == STAT_CACHE_CAPACITY)
  }

  predicate RunUnder(v: Volume, s: State, actions: seq<Action>, s': State, ev: Eviction)
    decreases |actions|
  {
    if actions == [] then s == s'
    else Enabled(v, s, actions[0]) && Allowed(s, actions[0], ev) &&
         RunUnder(v, Next(v, s, actions[0]), actions[1..], s', ev)
  }

  ghost predicate Reached(v: Volume, s: State, ev: Eviction) {
    exists actions :: RunUnder(v, Empty(), actions, s, ev)
  }

  /** In every state of every run, every finished callback gave the reply it would give without the cache. */
  ghost predicate AlwaysDirect(v: Volume, ev: Eviction) {
    forall s :: Reached(v, s, ev) ==> RepliesDirect(v, s)
  }

  lemma {:induction false} RunUnderIsRun(v: Volume, s: State, actions: seq<Action>, s': State, ev: Eviction)
    requires RunUnder(v, s, actions, s', ev)
    ensures Run(v, s, actions, s')
    decreases |actions|
  {
    if actions != [] {
      RunUnderIsRun(v, Next(v, s, actions[0]), actions[1..], s', ev);
    }
  }

  // ---- Building runs ------------------------------------------------------------------------------

  lemma RunCons(v: Volume, s: State, a: Action, rest: seq<Action>, s': State, ev: Eviction)
    requires Enabled(v, s, a) && Allowed(s, a, ev) && RunUnder(v, Next(v, s, a), rest, s', ev)
    ensures RunUnder(v, s, [a] + rest, s', ev)
  {
    assert ([a] + rest)[1..] == rest;
  }

  lemma {:induction false} RunAppend(v: Volume, s: State, a: seq<Action>, m: State, b: seq<Action>, s': State,
                                     ev: Eviction)
    requires RunUnder(v, s, a, m, ev) && RunUnder(v, m, b, s', ev)
    ensures RunUnder(v, s, a + b, s', ev)
    decreases |a|
  {
    if a == [] {
      assert a + b == b;
    } else {
      RunAppend(v, Next(v, s, a[0]), a[1..], m, b, s', ev);
      assert (a + b)[1..] == a[1..] + b;
    }
  }

  lemma Extend(v: Volume, s: State, a: Action, ev: Eviction)
    requires Reached(v, s, ev) && Enabled(v, s, a) && Allowed(s, a, ev)
    ensures Reached(v, Next(v, s, a), ev)
  {
    var actions :| RunUnder(v, Empty(), actions, s, ev);
    RunCons(v, s, a, [], Next(v, s, a), ev);
    RunAppend(v, Empty(), actions, s, [a] + [], Next(v, s, a), ev);
  }

  // ---- The real cache is one of the machine's behaviours ------------------------------------------

  /** Making room the way the recency list does: evict its last entry if the path is new and the list is full. */
  lemma MakesRoom(v: Volume, s: State, slots: seq<Slot>, path: string) returns (actions: seq<Action>, s': State)
    requires Distinct(slots) && |slots| <= STAT_CACHE_CAPACITY && s.cache == Contents(slots)
    ensures RunUnder(v, s, actions, s', WhenFull) && Room(s', path) && s' == s.(cache := s'.cache)
    ensures path in s.cache || |slots| < STAT_CACHE_CAPACITY ==> s'.cache == s.cache
    ensures path !in s.cache && |slots| == STAT_CACHE_CAPACITY ==>
              s'.cache == s.cache - {slots[STAT_CACHE_CAPACITY - 1].0}
  {
    ContentsSize(slots);
    if path in s.cache || |slots| < STAT_CACHE_CAPACITY {
      actions, s' := [], s;
    } else {
      var victim := slots[STAT_CACHE_CAPACITY - 1].0;
      ContentsKeys(slots, victim);
      s' := Next(v, s, Evict(victim));
      assert |s.cache - {victim}| == |s.cache| - 1;
      RunCons(v, s, Evict(victim), [], s', WhenFull);
      actions := [Evict(victim)] + [];
    }
  }

  /** A store into the recency list is a run of the machine that evicts only from a full cache. */
  lemma LruStoreIsARun(v: Volume, s: State, slots: seq<Slot>, t: Tid) returns (actions: seq<Action>, s': State)
    requires Distinct(slots) && |slots| <= STAT_CACHE_CAPACITY && s.cache == Contents(slots)
    requires t in s.threads && s.threads[t].Fetched? && s.filler == None
    ensures RunUnder(v, s, actions, s', WhenFull) && t in s'.threads && s'.threads[t].Done?
    ensures var path, c := s.threads[t].req.path, ResolvedEntry(s.threads[t].r);
            s'.cache == Contents(Insert(slots, STAT_CACHE_CAPACITY, path, c))
  {
    var path, c := s.threads[t].req.path, ResolvedEntry(s.threads[t].r);
    var room, s1 := MakesRoom(v, s, slots, path);
    s' := Next(v, s1, Store(t));
    RunCons(v, s1, Store(t), [], s', WhenFull);
    RunAppend(v, s, room, s1, [Store(t)] + [], s', WhenFull);
    actions := room + ([Store(t)] + []);
    InsertIsEvictThenStore(slots, STAT_CACHE_CAPACITY, path, c);
  }

  /** So is a round of a listing. */
  lemma LruFillIsARun(v: Volume, s: State, slots: seq<Slot>, t: Tid) returns (actions: seq<Action>, s': State)
    requires Distinct(slots) && |slots| <= STAT_CACHE_CAPACITY && s.cache == Contents(slots)
    requires t in s.threads && s.threads[t].Filling? && s.threads[t].i < |s.threads[t].entries|
    ensures RunUnder(v, s, actions, s', WhenFull) && t in s'.threads
    ensures s'.threads[t] == s.threads[t].(i := s.threads[t].i + 1)
    ensures var e := s.threads[t].entries[s.threads[t].i];
            s'.cache == Contents(AfterChild(slots, STAT_CACHE_CAPACITY, ChildPath(s.threads[t].dir, e.name), e))
  {
    var e := s.threads[t].entries[s.threads[t].i];
    var child := ChildPath(s.threads[t].dir, e.name);
    var room, s1 := MakesRoom(v, s, slots, child);
    s' := Next(v, s1, FillOne(t));
    RunCons(v, s1, FillOne(t), [], s', WhenFull);
    RunAppend(v, s, room, s1, [FillOne(t)] + [], s', WhenFull);
    actions := room + ([FillOne(t)] + []);
    LookupIsContents(slots, child);
    InsertIsEvictThenStore(slots, STAT_CACHE_CAPACITY, child, ListedEntry(e));
  }

  // ---- Runs of a single thread --------------------------------------------------------------------

  /** The state in which thread 0 is the only one. */
  function Solo(cache: map<string, CachedStat>, filler: Option<Tid>, p: Progress, handles: set<string>): State {
    State(cache, filler, map[0 := p], handles)
  }

  predicate Ready(s: State) {
    s.filler == None && (s.threads == map[] || (s.threads.Keys == {0} && s.threads[0].Done?))
  }

  lemma EmptyIsReached(v: Volume, ev: Eviction)
    ensures Reached(v, Empty(), ev) && Ready(Empty())
  {
    assert RunUnder(v, Empty(), [], Empty(), ev);
  }

  lemma Begins(v: Volume, s: State, req: Request, ev: Eviction)
    requires Reached(v, s, ev) && Ready(s) && (req.List? || req.GetInfo? ==> req.path in s.handles)
    ensures Reached(v, Solo(s.cache, None, Started(req), s.handles), ev)
  {
    Extend(v, s, Begin(0, req), ev);
    assert Next(v, s, Begin(0, req)) == Solo(s.cache, None, Started(req), s.handles);
  }

  /** A lookup that does not hit. */
  lemma Misses(v: Volume, cache: map<string, CachedStat>, req: Request, h: set<string>, ev: Eviction)
    requires Reached(v, Solo(cache, None, Started(req), h), ev)
    requires req.List? || (req.Open? && !Hits(req, cache))
    ensures Reached(v, Solo(cache, None, Missed(req), h), ev)
  {
    var s := Solo(cache, None, Started(req), h);
    Extend(v, s, Look(0), ev);
    assert Next(v, s, Look(0)) == Solo(cache, None, Missed(req), h);
  }

  lemma Fetches(v: Volume, path: string, ev: Eviction)
    requires v.statExt(path).Some?
    ensures Reached(v, Solo(map[], None, Fetched(Open(path), v.statExt(path).value), {}), ev)
  {
    EmptyIsReached(v, ev);
    Begins(v, Empty(), Open(path), ev);
    Misses(v, map[], Open(path), {}, ev);
    var s := Solo(map[], None, Missed(Open(path)), {});
    Extend(v, s, Query(0), ev);
    assert Next(v, s, Query(0)) == Solo(map[], None, Fetched(Open(path), v.statExt(path).value), {});
  }

  /** The first open of a path. */
  lemma Opens(v: Volume, path: string, ev: Eviction) returns (s: State)
    requires v.statExt(path).Some?
    ensures Reached(v, s, ev) && Ready(s) && s.handles == {path}
    ensures s.cache == map[path := ResolvedEntry(v.statExt(path).value)]
  {
    Fetches(v, path, ev);
    var fetched := Solo(map[], None, Fetched(Open(path), v.statExt(path).value), {});
    Extend(v, fetched, Store(0), ev);
    s := Next(v, fetched, Store(0));
  }

  lemma GetsListing(v: Volume, s: State, dir: string, ev: Eviction)
    requires Reached(v, s, ev) && Ready(s) && dir in s.handles && v.list(dir).Some?
    ensures Reached(v, Solo(s.cache, None, GotListing(dir, v.list(dir).value), s.handles), ev)
  {
    Begins(v, s, List(dir), ev);
    Misses(v, s.cache, List(dir), s.handles, ev);
    var missed := Solo(s.cache, None, Missed(List(dir)), s.handles);
    Extend(v, missed, Query(0), ev);
    assert Next(v, missed, Query(0)) == Solo(s.cache, None, GotListing(dir, v.list(dir).value), s.handles);
  }

  lemma StartsListing(v: Volume, s: State, dir: string, ev: Eviction)
    requires Reached(v, s, ev) && Ready(s) && dir in s.handles && v.list(dir).Some?
    ensures Reached(v, Solo(s.cache, Some(0), Filling(dir, v.list(dir).value, 0), s.handles), ev)
  {
    GetsListing(v, s, dir, ev);
    var got := Solo(s.cache, None, GotListing(dir, v.list(dir).value), s.handles);
    Extend(v, got, StartFill(0), ev);
    assert Next(v, got, StartFill(0)) == Solo(s.cache, Some(0), Filling(dir, v.list(dir).value, 0), s.handles);
  }

  lemma EndsListing(v: Volume, cache: map<string, CachedStat>, dir: string, entries: seq<DirEntry>, h: set<string>,
                    ev: Eviction)
    returns (s: State)
    requires Reached(v, Solo(cache, Some(0), Filling(dir, entries, |entries|), h), ev)
    ensures Reached(v, s, ev) && Ready(s) && s.handles == h && s.cache == cache
  {
    var s0 := Solo(cache, Some(0), Filling(dir, entries, |entries|), h);
    Extend(v, s0, EndFill(0), ev);
    s := Next(v, s0, EndFill(0));
  }

  /** The cache has room for `more` paths, or may evict to make some. */
  predicate HasRoom(cache: map<string, CachedStat>, more: nat, ev: Eviction) {
    |cache| <= STAT_CACHE_CAPACITY && (ev == Never ==> |cache| + more <= STAT_CACHE_CAPACITY)
  }

  /** The cache is as before, except that one entry other than `key` may have been evicted. */
  lemma FillMakesRoom(v: Volume, cache: map<string, CachedStat>, p: Progress, h: set<string>, more: nat,
                      key: string, ev: Eviction)
    returns (cache': map<string, CachedStat>)
    requires Reached(v, Solo(cache, Some(0), p, h), ev) && HasRoom(cache, more, ev) && more > 0
    ensures Reached(v, Solo(cache', Some(0), p, h), ev) && |cache'| < STAT_CACHE_CAPACITY && |cache'| <= |cache|
    ensures cache' == cache || exists path :: path != key && cache' == cache - {path}
  {
    if |cache| < STAT_CACHE_CAPACITY {
      return cache;
    }
    var path := OtherKey(cache, key);
    var s := Solo(cache, Some(0), p, h);
    Extend(v, s, Evict(path), ev);
    cache' := cache - {path};
    assert Next(v, s, Evict(path)) == Solo(cache', Some(0), p, h);
    assert |cache'| == |cache| - 1;
  }

  lemma OtherKey(cache: map<string, CachedStat>, key: string) returns (path: string)
    requires |cache| >= 2
    ensures path in cache && path != key
  {
    assert |cache.Keys - {key}| >= 1;
    path :| path in cache.Keys - {key};
  }

  function Filled(cache: map<string, CachedStat>, child: string, e: DirEntry): map<string, CachedStat> {
    if child in cache then cache else cache[child := ListedEntry(e)]
  }

  lemma Fills(v: Volume, cache: map<string, CachedStat>, dir: string, entries: seq<DirEntry>, i: nat, h: set<string>,
              ev: Eviction)
    requires i < |entries| && (ChildPath(dir, entries[i].name) in cache || |cache| < STAT_CACHE_CAPACITY)
    requires Reached(v, Solo(cache, Some(0), Filling(dir, entries, i), h), ev)
    ensures var after := Filled(cache, ChildPath(dir, entries[i].name), entries[i]);
            Reached(v, Solo(after, Some(0), Filling(dir, entries, i + 1), h), ev)
  {
    var s := Solo(cache, Some(0), Filling(dir, entries, i), h);
    Extend(v, s, FillOne(0), ev);
    var after := Filled(cache, ChildPath(dir, entries[i].name), entries[i]);
    assert Next(v, s, FillOne(0)) == Solo(after, Some(0), Filling(dir, entries, i + 1), h);
  }

  /** One round of the filling loop, which leaves `key` alone unless it is the child. */
  lemma FillRound(v: Volume, cache: map<string, CachedStat>, dir: string, entries: seq<DirEntry>, i: nat,
                  h: set<string>, more: nat, key: string, ev: Eviction)
    returns (cache': map<string, CachedStat>)
    requires i < |entries| && more > 0 && HasRoom(cache, more, ev)
    requires Reached(v, Solo(cache, Some(0), Filling(dir, entries, i), h), ev)
    ensures Reached(v, Solo(cache', Some(0), Filling(dir, entries, i + 1), h), ev) && HasRoom(cache', more - 1, ev)
    ensures var child := ChildPath(dir, entries[i].name);
            && (child !in cache ==> child in cache' && cache'[child] == ListedEntry(entries[i]))
            && (key in cache ==> key in cache' && cache'[key] == cache[key])
            && (key !in cache && key != child ==> key !in cache')
  {
    var child := ChildPath(dir, entries[i].name);
    var room := cache;
    if child !in cache {
      room := FillMakesRoom(v, cache, Filling(dir, entries, i), h, more, key, ev);
    }
    Fills(v, room, dir, entries, i, h, ev);
    cache' := Filled(room, child, entries[i]);
  }

  /** Rounds i to n - 1 leave a key alone that is cached or is none of their children. */
  lemma {:induction false} FillsAround(v: Volume, cache: map<string, CachedStat>, dir: string, entries: seq<DirEntry>,
                                       i: nat, n: nat, h: set<string>, more: nat, key: string, ev: Eviction)
    returns (cache': map<string, CachedStat>)
    requires i <= n <= |entries| && more >= n - i && HasRoom(cache, more, ev)
    requires Reached(v, Solo(cache, Some(0), Filling(dir, entries, i), h), ev)
    requires key in cache || forall k :: i <= k < n ==> ChildPath(dir, entries[k].name) != key
    ensures Reached(v, Solo(cache', Some(0), Filling(dir, entries, n), h), ev)
    ensures HasRoom(cache', more - (n - i), ev)
    ensures key in cache' <==> key in cache
    ensures key in cache ==> cache'[key] == cache[key]
    decreases n - i
  {
    if i == n {
      return cache;
    }
    var next := FillRound(v, cache, dir, entries, i, h, more, key, ev);
    cache' := FillsAround(v, next, dir, entries, i + 1, n, h, more - 1, key, ev);
  }

  /** The child at index i and the first under its path. */
  predicate FirstUnderPath(dir: string, entries: seq<DirEntry>, i: nat)
    requires i < |entries|
  {
    forall k :: 0 <= k < i ==> ChildPath(dir, entries[k].name) != ChildPath(dir, entries[i].name)
  }

  /** The filling loop leaves any such child that was not cached in the cache. */
  lemma FillsWith(v: Volume, cache: map<string, CachedStat>, dir: string, entries: seq<DirEntry>, i: nat,
                  h: set<string>, ev: Eviction)
    returns (cache': map<string, CachedStat>)
    requires i < |entries| && FirstUnderPath(dir, entries, i) && ChildPath(dir, entries[i].name) !in cache
    requires HasRoom(cache, |entries|, ev) && Reached(v, Solo(cache, Some(0), Filling(dir, entries, 0), h), ev)
    ensures Reached(v, Solo(cache', Some(0), Filling(dir, entries, |entries|), h), ev)
    ensures var key := ChildPath(dir, entries[i].name); key in cache' && cache'[key] == ListedEntry(entries[i])
  {
    var key, n := ChildPath(dir, entries[i].name), |entries|;
    var before := FillsAround(v, cache, dir, entries, 0, i, h, n, key, ev);
    var planted := FillRound(v, before, dir, entries, i, h, n - i, key, ev);
    cache' := FillsAround(v, planted, dir, entries, i + 1, n, h, n - i - 1, key, ev);
  }

  /** Opening a directory and listing it leaves any one child in the cache as its first entry describes it. */
  lemma Plants(v: Volume, dir: string, i: nat, ev: Eviction) returns (s: State)
    requires v.statExt(dir).Some? && v.list(dir).Some? && i < |v.list(dir).value|
    requires v.list(dir).value[i].name != "" && FirstUnderPath(dir, v.list(dir).value, i)
    requires ev == Never ==> |v.list(dir).value| < STAT_CACHE_CAPACITY
    ensures var e := v.list(dir).value[i];
            && Reached(v, s, ev) && Ready(s) && ChildPath(dir, e.name) in s.cache
            && s.cache[ChildPath(dir, e.name)] == ListedEntry(e)
  {
    var entries := v.list(dir).value;
    assert |ChildPath(dir, entries[i].name)| > |dir|;
    s := Opens(v, dir, ev);
    StartsListing(v, s, dir, ev);
    var cache := FillsWith(v, s.cache, dir, entries, i, s.handles, ev);
    s := EndsListing(v, cache, dir, entries, s.handles, ev);
  }

  // ---- A wrong reply for every disagreement ----------------------------------------------------------

  /** A hit is answered from the cache, so a hit with a wrong answer is a wrong reply. */
  lemma WrongHit(v: Volume, s: State, req: Request, ev: Eviction)
    requires Reached(v, s, ev) && Ready(s) && !req.List? && (req.GetInfo? ==> req.path in s.handles)
    requires Hits(req, s.cache) && !(req.Security? && IsRoot(req.path))
    requires FromCache(req, s.cache[req.path]) != Direct(v, req)
    ensures !AlwaysDirect(v, ev)
  {
    Begins(v, s, req, ev);
    var s1 := Solo(s.cache, None, Started(req), s.handles);
    Extend(v, s1, Look(0), ev);
    var s2 := Next(v, s1, Look(0));
    assert s2.threads[0] == Done(req, FromCache(req, s.cache[req.path]));
    assert !RepliesDirect(v, s2);
  }

  /** open caches stat_and_extents; get_file_info then answers from it instead of from stat. */
  lemma StatMismatchShows(v: Volume, path: string, ev: Eviction)
    requires !StatsAgree(v, path)
    ensures !AlwaysDirect(v, ev)
  {
    var s := Opens(v, path, ev);
    WrongHit(v, s, GetInfo(path), ev);
  }

  /** The path of a listed child cannot be resolved, or leads to a directory where the entry says file or vice versa. */
  predicate WrongChild(v: Volume, path: string, e: DirEntry) {
    match v.statExt(path)
    case None => true
    case Some(r) => (r.stat.kind == Directory) != (e.kind == Directory)
  }

  /** A listing plants a wrong entry; get_security_by_name then answers from it. */
  lemma ListingMismatchShows(v: Volume, dir: string, i: nat, ev: Eviction)
    requires v.statExt(dir).Some? && v.list(dir).Some? && i < |v.list(dir).value|
    requires v.list(dir).value[i].name != "" && FirstUnderPath(dir, v.list(dir).value, i)
    requires ev == Never ==> |v.list(dir).value| < STAT_CACHE_CAPACITY
    requires WrongChild(v, ChildPath(dir, v.list(dir).value[i].name), v.list(dir).value[i])
    ensures !AlwaysDirect(v, ev)
  {
    var s := Plants(v, dir, i, ev);
    var child := ChildPath(dir, v.list(dir).value[i].name);
    assert |child| >= 2;
    WrongHit(v, s, Security(child), ev);
  }

  // ---- The exact condition ---------------------------------------------------------------------------

  /** No directory fills the cache by itself. */
  ghost predicate ListingsFit(v: Volume) {
    forall dir :: v.list(dir).Some? ==> |v.list(dir).value| < STAT_CACHE_CAPACITY
  }

  lemma AgreementHides(v: Volume, ev: Eviction)
    requires Agrees(v)
    ensures AlwaysDirect(v, ev)
  {
    forall s | Reached(v, s, ev)
      ensures RepliesDirect(v, s)
    {
      var actions :| RunUnder(v, Empty(), actions, s, ev);
      RunUnderIsRun(v, Empty(), actions, s, ev);
      RunIsTransparent(v, Empty(), actions, s);
    }
  }

  lemma ChildPathsAreDistinct(dir: string, a: string, b: string)
    requires ChildPath(dir, a) == ChildPath(dir, b)
    ensures a == b
  {
    var k := if IsRoot(dir) then 1 else |dir| + 1;
    assert ChildPath(dir, a)[k..] == a && ChildPath(dir, b)[k..] == b;
  }

  lemma {:induction false} ListedNamesAreDistinct(c: Catalog, records: seq<Record>, k: nat, i: nat)
    requires NamesAreKeys(records) && k < i < |Listing(c, records)|
    ensures Listing(c, records)[k].name != Listing(c, records)[i].name
    decreases |records|
  {
    var listed := records[0].name.Some? && records[0].child.Some?;
    if listed && k == 0 {
      var j := ListedHasRecord(c, records[1..], i - 1);
      assert records[0].name != records[j + 1].name;
    } else {
      var d := if listed then 1 else 0;
      ListedNamesAreDistinct(c, records[1..], k - d, i - d);
    }
  }

  lemma ListedPathsAreDistinct(c: Catalog, dir: string, i: nat)
    requires WellNamed(c) && ListOf(c, dir).Some? && i < |ListOf(c, dir).value|
    ensures FirstUnderPath(dir, ListOf(c, dir).value, i)
  {
    var entries := ListOf(c, dir).value;
    forall k | 0 <= k < i
      ensures ChildPath(dir, entries[k].name) != ChildPath(dir, entries[i].name)
    {
      ListedNamesAreDistinct(c, c.records(DirectoryId(c, dir).value).value, k, i);
      if ChildPath(dir, entries[k].name) == ChildPath(dir, entries[i].name) {
        ChildPathsAreDistinct(dir, entries[k].name, entries[i].name);
      }
    }
  }

  /** A child that does not agree shows, unless it is a directory whose size shows anyway. */
  lemma DisagreeingChildShows(c: Catalog, dir: string, i: nat, ev: Eviction)
    requires WellNamed(c) && (ev == Never ==> ListingsFit(Present(c)))
    requires ResolvedOf(c, dir).Some? && ListOf(c, dir).Some? && i < |ListOf(c, dir).value|
    requires var e := ListOf(c, dir).value[i]; !ChildAgrees(c, dir, Child(e.oid, e.kind))
    ensures !AlwaysDirect(Present(c), ev)
  {
    var v, e := Present(c), ListOf(c, dir).value[i];
    var child := ChildPath(dir, e.name);
    ListedChildResolves(c, dir, i);
    if WrongChild(v, child, e) {
      ListedPathsAreDistinct(c, dir, i);
      ListingMismatchShows(v, dir, i, ev);
    } else {
      StatsAgreeIffSizeZero(c, child);
      StatMismatchShows(v, child, ev);
    }
  }

  /**
   For every catalog the stat cache never changes a reply if and only if the catalog is consistent:
   whatever it may evict, also when it evicts only from a full cache, and also when it evicts nothing if
   every directory fits.
   */
  lemma CacheIsTransparentIffConsistent(c: Catalog, ev: Eviction)
    requires WellNamed(c) && (ev == Never ==> ListingsFit(Present(c)))
    ensures AlwaysDirect(Present(c), ev) <==> Consistent(c)
  {
    if Consistent(c) {
      AgreesIffConsistent(c);
      AgreementHides(Present(c), ev);
    } else if path :| !DirectorySizeIsZero(c, path) {
      StatsAgreeIffSizeZero(c, path);
      StatMismatchShows(Present(c), path, ev);
    } else {
      var dir :| !ChildrenAgree(c, dir);
      var i :| 0 <= i < |ListOf(c, dir).value| &&
        !ChildAgrees(c, dir, Child(ListOf(c, dir).value[i].oid, ListOf(c, dir).value[i].kind));
      DisagreeingChildShows(c, dir, i, ev);
    }
  }

  /** The simplest volume that shows the cache: a root directory whose inode has a size. */
  lemma RootSizeShows(c: Catalog, ev: Eviction)
    requires c.inode(ROOT_DIR_RECORD).Some?
    requires c.inode(ROOT_DIR_RECORD).value.kind == Directory && c.inode(ROOT_DIR_RECORD).value.size != 0
    ensures !AlwaysDirect(Present(c), ev)
  {
    RootHasNoComponents("/");
    StatsAgreeIffSizeZero(c, "/");
    StatMismatchShows(Present(c), "/", ev);
  }
}
