/**
 Concurrent callbacks on one ApfsDriver. Every step holds the cache mutex or the volume mutex, not
 both, so lookups, volume queries and stores of different threads interleave freely; a listing keeps
 the cache mutex while it fills the cache entry by entry. Eviction may strike at any time.
 */
module CacheMachine {
  import opened Basics
  import opened Volume
  import opened CacheEffects
  import opened StatCache

  type Tid = nat

  /** How far a thread is with its callback. */
  datatype Progress =
    | Started(req: Request)
    | Missed(req: Request)
    | Fetched(req: Request, r: Resolved)
    | GotListing(dir: string, entries: seq<DirEntry>)
    | Filling(dir: string, entries: seq<DirEntry>, i: nat)
    | Done(req: Request, reply: Reply)

  datatype State = State(
    cache: map<string, CachedStat>,
    filler: Option<Tid>,            // the thread inside a listing's critical section, if any
    threads: map<Tid, Progress>,
    handles: set<string>)            // paths that have an open handle

  datatype Action =
    | Begin(t: Tid, req: Request)
    | Look(t: Tid)
    | Query(t: Tid)
    | Store(t: Tid)
    | StartFill(t: Tid)
    | FillOne(t: Tid)
    | EndFill(t: Tid)
    | Evict(path: string)

  function Empty(): State {
    State(map[], None, map[], {})
  }

  /** A new path needs room; the cache makes it by evicting first. */
  predicate Room(s: State, path: string) {
    path in s.cache || |s.cache| < STAT_CACHE_CAPACITY
  }

  predicate Enabled(v: Volume, s: State, a: Action) {
    match a
    case Begin(t, req) =>
      && (t in s.threads ==> s.threads[t].Done?)
      && (req.List? || req.GetInfo? ==> req.path in s.handles)
    case Look(t) => t in s.threads && s.threads[t].Started? && s.filler == None
    case Query(t) => t in s.threads && s.threads[t].Missed?
    case Store(t) => t in s.threads && s.threads[t].Fetched? && s.filler == None && Room(s, s.threads[t].req.path)
    case StartFill(t) => t in s.threads && s.threads[t].GotListing? && s.filler == None
    case FillOne(t) => t in s.threads && s.threads[t].Filling? && s.threads[t].i < |s.threads[t].entries|
                       && Room(s, ChildPath(s.threads[t].dir, s.threads[t].entries[s.threads[t].i].name))
    case EndFill(t) => t in s.threads && s.threads[t].Filling? && s.threads[t].i == |s.threads[t].entries|
    case Evict(path) => path in s.cache
  }

  function Move(s: State, t: Tid, p: Progress): State {
    s.(threads := s.threads[t := p])
  }

  /** A finished Open leaves a handle. */
  function Finish(s: State, t: Tid, req: Request, reply: Reply): State {
    Move(s, t, Done(req, reply)).(handles := if reply.Opened? then s.handles + {req.path} else s.handles)
  }

  function AfterLook(s: State, t: Tid, req: Request): State {
    if req.List? then Move(s, t, Missed(req))
    else if req.Security? && IsRoot(req.path) then Finish(s, t, req, SecurityIs(ATTRIBUTE_DIRECTORY))
    else if Hits(req, s.cache) then Finish(s, t, req, FromCache(req, s.cache[req.path]))
    else Move(s, t, Missed(req))
  }

  function AfterQuery(v: Volume, s: State, t: Tid, req: Request): State {
    match req
    case List(path) =>
      (match v.list(path)
       case None => Finish(s, t, req, Failed(STATUS_NOT_A_DIRECTORY))
       case Some(entries) => Move(s, t, GotListing(path, entries)))
    case GetInfo(path) =>
      (match v.stat(path)
       case None => Finish(s, t, req, Failed(STATUS_NOT_FOUND))
       case Some(stat) => Finish(s, t, req, InfoIs(Info(stat, stat.size))))
    case _ =>
      (match v.statExt(req.path)
       case None => Finish(s, t, req, Failed(STATUS_NOT_FOUND))
       case Some(r) => Move(s, t, Fetched(req, r)))
  }

  /** What a callback answers from its own fresh query. */
  function FreshReply(req: Request, r: Resolved): Reply {
    if req.Security? then SecurityIs(Attributes(r.stat.kind))
    else Opened(Info(r.stat, r.fileSize), r.ext, r.fileSize)
  }

  function Next(v: Volume, s: State, a: Action): State
    requires Enabled(v, s, a)
  {
    match a
    case Begin(t, req) => Move(s, t, Started(req))
    case Look(t) => AfterLook(s, t, s.threads[t].req)
    case Query(t) => AfterQuery(v, s, t, s.threads[t].req)
    case Store(t) =>
      var p := s.threads[t];
      Finish(s, t, p.req, FreshReply(p.req, p.r)).(cache := s.cache[p.req.path := ResolvedEntry(p.r)])
    case StartFill(t) => Move(s, t, Filling(s.threads[t].dir, s.threads[t].entries, 0)).(filler := Some(t))
    case FillOne(t) =>
      var p := s.threads[t];
      var e := p.entries[p.i];
      var child := ChildPath(p.dir, e.name);
      Move(s, t, p.(i := p.i + 1)).(cache := if child in s.cache then s.cache else s.cache[child := ListedEntry(e)])
    case EndFill(t) =>
      var p := s.threads[t];
      Finish(s, t, List(p.dir), Listed(p.entries)).(filler := None)
    case Evict(path) => s.(cache := s.cache - {path})
  }

  predicate Run(v: Volume, s: State, actions: seq<Action>, s': State)
    decreases |actions|
  {
    if actions == [] then s == s'
    else Enabled(v, s, actions[0]) && Run(v, Next(v, s, actions[0]), actions[1..], s')
  }

  ghost predicate Reachable(v: Volume, s: State) {
    exists actions :: Run(v, Empty(), actions, s)
  }

  // ---- What holds whatever the volume says -----------------------------------------------------

  /** What a thread carries is what the volume answered. */
  ghost predicate ProgressOk(v: Volume, s: State, p: Progress) {
    match p
    case Started(req) => req.List? ==> req.path in s.handles
    case Missed(req) => (req.List? ==> req.path in s.handles) && (req.Security? ==> !IsRoot(req.path))
    case Fetched(req, r) =>
      (req.Security? || req.Open?) && (req.Security? ==> !IsRoot(req.path)) && v.statExt(req.path) == Some(r)
    case GotListing(dir, entries) => dir in s.handles && v.list(dir) == Some(entries)
    case Filling(dir, entries, i) => dir in s.handles && v.list(dir) == Some(entries) && i <= |entries|
    case Done(req, reply) => FileIsComplete(v, req.path, reply)
  }

  ghost predicate Inv(v: Volume, s: State) {
    && |s.cache| <= STAT_CACHE_CAPACITY
    && ResolvedExact(v, s.cache)
    && (forall t :: t in s.threads ==> ProgressOk(v, s, s.threads[t]))
    && (forall t :: t in s.threads && s.threads[t].Filling? ==> s.filler == Some(t))
  }

  lemma LookKeepsInv(v: Volume, s: State, t: Tid)
    requires Inv(v, s) && Enabled(v, s, Look(t))
    ensures Inv(v, Next(v, s, Look(t)))
  {
  }

  lemma QueryKeepsInv(v: Volume, s: State, t: Tid)
    requires Inv(v, s) && Enabled(v, s, Query(t))
    ensures Inv(v, Next(v, s, Query(t)))
  {
  }

  lemma StoreKeepsInv(v: Volume, s: State, t: Tid)
    requires Inv(v, s) && Enabled(v, s, Store(t))
    ensures Inv(v, Next(v, s, Store(t)))
  {
    assert ProgressOk(v, s, s.threads[t]);
  }

  lemma FillOneKeepsInv(v: Volume, s: State, t: Tid)
    requires Inv(v, s) && Enabled(v, s, FillOne(t))
    ensures Inv(v, Next(v, s, FillOne(t)))
  {
    assert ProgressOk(v, s, s.threads[t]);
  }

  lemma EvictKeepsInv(v: Volume, s: State, path: string)
    requires Inv(v, s) && Enabled(v, s, Evict(path))
    ensures Inv(v, Next(v, s, Evict(path)))
  {
    assert |s.cache - {path}| == |s.cache| - 1;
  }

  lemma StepKeepsInv(v: Volume, s: State, a: Action)
    requires Inv(v, s) && Enabled(v, s, a)
    ensures Inv(v, Next(v, s, a))
  {
    match a
    case Look(t) => LookKeepsInv(v, s, t);
    case Query(t) => QueryKeepsInv(v, s, t);
    case Store(t) => StoreKeepsInv(v, s, t);
    case FillOne(t) => FillOneKeepsInv(v, s, t);
    case Evict(path) => EvictKeepsInv(v, s, path);
    case _ =>
  }

  /**
   In every interleaving on any volume: the cache is never over capacity, every resolved entry is the
   volume's own answer, and every file handed out by open carries its real extents and size.
   */
  lemma {:induction false} InvAlongRun(v: Volume, s: State, actions: seq<Action>, s': State)
    requires Inv(v, s) && Run(v, s, actions, s')
    ensures Inv(v, s')
    decreases |actions|
  {
    if actions != [] {
      StepKeepsInv(v, s, actions[0]);
      InvAlongRun(v, Next(v, s, actions[0]), actions[1..], s');
    }
  }

  lemma ExtentsAreNeverLost(v: Volume, s: State)
    requires Reachable(v, s)
    ensures Inv(v, s)
  {
    var actions :| Run(v, Empty(), actions, s);
    InvAlongRun(v, Empty(), actions, s);
  }

  /** Only eviction removes a resolved entry, and no step at all replaces one by an unresolved entry. */
  lemma ResolvedStaysResolved(v: Volume, s: State, a: Action, path: string)
    requires Inv(v, s) && Enabled(v, s, a) && path in s.cache && s.cache[path].resolved
    ensures path in Next(v, s, a).cache <==> a != Evict(path)
    ensures path in Next(v, s, a).cache ==> Next(v, s, a).cache[path] == s.cache[path]
  {
  }

  // ---- No deadlock ------------------------------------------------------------------------------

  /** Whoever has the cache for a listing is filling it. */
  predicate FillerFills(s: State) {
    s.filler.Some? ==> s.filler.value in s.threads && s.threads[s.filler.value].Filling?
  }

  lemma StepKeepsFiller(v: Volume, s: State, a: Action)
    requires Inv(v, s) && FillerFills(s) && Enabled(v, s, a)
    ensures FillerFills(Next(v, s, a))
  {
  }

  lemma {:induction false} RunKeepsFiller(v: Volume, s: State, actions: seq<Action>, s': State)
    requires Inv(v, s) && FillerFills(s) && Run(v, s, actions, s')
    ensures FillerFills(s')
    decreases |actions|
  {
    if actions != [] {
      StepKeepsInv(v, s, actions[0]);
      StepKeepsFiller(v, s, actions[0]);
      RunKeepsFiller(v, Next(v, s, actions[0]), actions[1..], s');
    }
  }

  /** What a thread does next, making room first if a store needs it. */
  lemma ThreadCanMove(v: Volume, s: State, t: Tid) returns (a: Action)
    requires Inv(v, s) && t in s.threads && !s.threads[t].Done?
    requires s.filler == None || s.threads[t].Filling?
    ensures Enabled(v, s, a) && !a.Begin?
    ensures a.Evict? ==> |s.cache| == STAT_CACHE_CAPACITY
  {
    assert ProgressOk(v, s, s.threads[t]);
    match s.threads[t]
    case Started(_) => a := Look(t);
    case Missed(_) => a := Query(t);
    case GotListing(_, _) => a := StartFill(t);
    case Fetched(req, _) => a := StoreOrEvict(s, req.path, Store(t));
    case Filling(dir, entries, i) =>
      a := if i == |entries| then EndFill(t) else StoreOrEvict(s, ChildPath(dir, entries[i].name), FillOne(t));
  }

  /** The store if there is room, or an eviction. */
  ghost function StoreOrEvict(s: State, path: string, store: Action): Action {
    if Room(s, path) then store
    else
      assert |s.cache.Keys| > 0;
      var victim :| victim in s.cache; Evict(victim)
  }

  /** In every interleaving on any volume, while a callback has not returned, some callback can go on. */
  lemma SomeCallbackCanGoOn(v: Volume, s: State, t: Tid) returns (a: Action)
    requires Reachable(v, s) && t in s.threads && !s.threads[t].Done?
    ensures Enabled(v, s, a) && !a.Begin?
  {
    ExtentsAreNeverLost(v, s);
    var actions :| Run(v, Empty(), actions, s);
    RunKeepsFiller(v, Empty(), actions, s);
    a := ThreadCanMove(v, s, if s.filler.Some? then s.filler.value else t);
  }

  // ---- Transparency on a volume whose listings and stats agree -----------------------------------

  ghost predicate RepliesDirect(v: Volume, s: State) {
    forall t :: t in s.threads && s.threads[t].Done? ==> s.threads[t].reply == Direct(v, s.threads[t].req)
  }

  ghost predicate HandlesExist(v: Volume, s: State) {
    forall path :: path in s.handles ==> v.statExt(path).Some?
  }

  ghost predicate Transparent(v: Volume, s: State) {
    Inv(v, s) && CacheSound(v, s.cache) && RepliesDirect(v, s) && HandlesExist(v, s)
  }

  /** Finishing with the direct reply keeps all replies direct and all handles on existing paths. */
  lemma FinishIsDirect(v: Volume, s: State, t: Tid, req: Request, reply: Reply)
    requires RepliesDirect(v, s) && HandlesExist(v, s) && reply == Direct(v, req)
    ensures RepliesDirect(v, Finish(s, t, req, reply)) && HandlesExist(v, Finish(s, t, req, reply))
  {
  }

  lemma MoveIsDirect(v: Volume, s: State, t: Tid, p: Progress)
    requires RepliesDirect(v, s) && HandlesExist(v, s) && !p.Done?
    ensures RepliesDirect(v, Move(s, t, p)) && HandlesExist(v, Move(s, t, p))
  {
  }

  lemma LookIsTransparent(v: Volume, s: State, t: Tid)
    requires Agrees(v) && Transparent(v, s) && Enabled(v, s, Look(t))
    ensures Transparent(v, Next(v, s, Look(t)))
  {
    LookKeepsInv(v, s, t);
    var req := s.threads[t].req;
    MoveIsDirect(v, s, t, Missed(req));
    if req.Security? && IsRoot(req.path) {
      FinishIsDirect(v, s, t, req, SecurityIs(ATTRIBUTE_DIRECTORY));
    } else if !req.List? && Hits(req, s.cache) {
      HitIsDirect(v, req, s.cache);
      FinishIsDirect(v, s, t, req, FromCache(req, s.cache[req.path]));
    }
  }

  lemma QueryIsTransparent(v: Volume, s: State, t: Tid)
    requires Agrees(v) && Transparent(v, s) && Enabled(v, s, Query(t))
    ensures Transparent(v, Next(v, s, Query(t)))
  {
    QueryKeepsInv(v, s, t);
    var req := s.threads[t].req;
    assert ProgressOk(v, s, s.threads[t]);
    match req
    case List(path) =>
      match v.list(path) {
        case None => FinishIsDirect(v, s, t, req, Failed(STATUS_NOT_A_DIRECTORY));
        case Some(entries) => MoveIsDirect(v, s, t, GotListing(path, entries));
      }
    case GetInfo(path) => FinishIsDirect(v, s, t, req, Direct(v, req));
    case _ =>
      match v.statExt(req.path) {
        case None => FinishIsDirect(v, s, t, req, Failed(STATUS_NOT_FOUND));
        case Some(r) => MoveIsDirect(v, s, t, Fetched(req, r));
      }
  }

  lemma StoreIsTransparent(v: Volume, s: State, t: Tid)
    requires Agrees(v) && Transparent(v, s) && Enabled(v, s, Store(t))
    ensures Transparent(v, Next(v, s, Store(t)))
  {
    StoreKeepsInv(v, s, t);
    assert ProgressOk(v, s, s.threads[t]);
    FinishIsDirect(v, s, t, s.threads[t].req, FreshReply(s.threads[t].req, s.threads[t].r));
  }

  lemma FillOneIsTransparent(v: Volume, s: State, t: Tid)
    requires Agrees(v) && Transparent(v, s) && Enabled(v, s, FillOne(t))
    ensures Transparent(v, Next(v, s, FillOne(t)))
  {
    FillOneKeepsInv(v, s, t);
    var p := s.threads[t];
    assert ProgressOk(v, s, p);
    ListedIsSound(v, p.dir, p.i);
    MoveIsDirect(v, s, t, p.(i := p.i + 1));
    FilledIsSound(v, s.cache, ChildPath(p.dir, p.entries[p.i].name), ListedEntry(p.entries[p.i]));
  }

  lemma FilledIsSound(v: Volume, cache: map<string, CachedStat>, path: string, c: CachedStat)
    requires CacheSound(v, cache) && EntrySound(v, path, c)
    ensures CacheSound(v, if path in cache then cache else cache[path := c])
  {
  }

  lemma EndFillIsTransparent(v: Volume, s: State, t: Tid)
    requires Agrees(v) && Transparent(v, s) && Enabled(v, s, EndFill(t))
    ensures Transparent(v, Next(v, s, EndFill(t)))
  {
    StepKeepsInv(v, s, EndFill(t));
    assert ProgressOk(v, s, s.threads[t]);
    FinishIsDirect(v, s, t, List(s.threads[t].dir), Listed(s.threads[t].entries));
  }

  lemma StepIsTransparent(v: Volume, s: State, a: Action)
    requires Agrees(v) && Transparent(v, s) && Enabled(v, s, a)
    ensures Transparent(v, Next(v, s, a))
  {
    match a
    case Begin(t, req) =>
      StepKeepsInv(v, s, a);
      MoveIsDirect(v, s, t, Started(req));
    case Look(t) => LookIsTransparent(v, s, t);
    case Query(t) => QueryIsTransparent(v, s, t);
    case Store(t) => StoreIsTransparent(v, s, t);
    case StartFill(t) =>
      StepKeepsInv(v, s, a);
      MoveIsDirect(v, s, t, Filling(s.threads[t].dir, s.threads[t].entries, 0));
    case FillOne(t) => FillOneIsTransparent(v, s, t);
    case EndFill(t) => EndFillIsTransparent(v, s, t);
    case Evict(path) => EvictKeepsInv(v, s, path);
  }

  lemma {:induction false} RunIsTransparent(v: Volume, s: State, actions: seq<Action>, s': State)
    requires Agrees(v) && Transparent(v, s) && Run(v, s, actions, s')
    ensures Transparent(v, s')
    decreases |actions|
  {
    if actions != [] {
      StepIsTransparent(v, s, actions[0]);
      RunIsTransparent(v, Next(v, s, actions[0]), actions[1..], s');
    }
  }
}
