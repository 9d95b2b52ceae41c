/**
 What a listing does to a cache it does not fit into: which resolved entries it pushes out and then
 stores again without their extents (src/driver.rs, read_directory).
 */
module Overflow {
  import opened Volume
  import opened StatCache
  import opened CacheEffects

  function Keys(slots: seq<Slot>): (keys: seq<string>)
    ensures |keys| == |slots| && forall i :: 0 <= i < |slots| ==> keys[i] == slots[i].0
  {
    if slots == [] then [] else [slots[0].0] + Keys(slots[1..])
  }

  function Names(dir: string, entries: seq<DirEntry>): (names: seq<string>)
    ensures |names| == |entries| && forall i :: 0 <= i < |entries| ==> names[i] == ChildPath(dir, entries[i].name)
  {
    if entries == [] then [] else [ChildPath(dir, entries[0].name)] + Names(dir, entries[1..])
  }

  function Front(s: seq<string>, n: nat): seq<string> {
    if |s| <= n then s else s[..n]
  }

  /**
   The names a listing stores, last one first. `held` is the recency order before it, with pushed-out
   names kept at the end: a name is cached while it is among the first `capacity`.
   */
  function Stored(held: seq<string>, capacity: nat, names: seq<string>): seq<string>
    decreases |names|
  {
    if names == [] then []
    else if names[0] in Front(held, capacity) then Stored(held, capacity, names[1..])
    else Stored([names[0]] + held, capacity, names[1..]) + [names[0]]
  }

  // ---- Stored is what the cache stores --------------------------------------------------------------

  lemma {:induction false} LookupPresent(slots: seq<Slot>, path: string)
    requires path in Keys(slots)
    ensures Lookup(slots, path).Some?
  {
    if slots[0].0 != path {
      LookupPresent(slots[1..], path);
    }
  }

  lemma KeysOfFront(first: Slot, slots: seq<Slot>, n: nat)
    requires n <= |slots|
    ensures Keys([first] + slots[..n]) == [first.0] + Keys(slots)[..n]
  {
  }

  /** One round on the recency order. */
  lemma RoundOrder(slots: seq<Slot>, held: seq<string>, capacity: nat, child: string, e: DirEntry)
    requires |slots| <= capacity && capacity > 0 && Keys(slots) == Front(held, capacity)
    ensures var after := AfterChild(slots, capacity, child, e);
            if child in Front(held, capacity) then after == slots
            else Keys(after) == Front([child] + held, capacity) && |after| <= capacity
                 && after[0] == (child, ListedEntry(e)) && after[1..] == slots[..|after| - 1]
  {
    if child in Keys(slots) {
      LookupPresent(slots, child);
    } else {
      assert forall i :: 0 <= i < |slots| ==> Keys(slots)[i] == slots[i].0 != child;
      WithoutMissing(slots, child);
      if |slots| == capacity {
        KeysOfFront((child, ListedEntry(e)), slots, capacity - 1);
      } else {
        assert slots[..|slots|] == slots;
        KeysOfFront((child, ListedEntry(e)), slots, |slots|);
      }
    }
  }

  /** The slots show the first `capacity` names of the recency order. */
  predicate Shows(slots: seq<Slot>, held: seq<string>, capacity: nat) {
    capacity > 0 && |slots| <= capacity && Distinct(slots) && Keys(slots) == Front(held, capacity)
  }

  lemma RoundContents(slots: seq<Slot>, held: seq<string>, capacity: nat, child: string, e: DirEntry, path: string)
    requires Shows(slots, held, capacity)
    ensures var after := AfterChild(slots, capacity, child, e);
            && Shows(after, if child in Front(held, capacity) then held else [child] + held, capacity)
            && (path in Contents(after) ==>
                  if child !in Front(held, capacity) && path == child then !Contents(after)[path].resolved
                  else path in Contents(slots) && Contents(after)[path] == Contents(slots)[path])
  {
    RoundOrder(slots, held, capacity, child, e);
    LookupIsContents(slots, child);
    InsertIsEvictThenStore(slots, capacity, child, ListedEntry(e));
  }

  /** After a listing the cache shows what was stored, in front of what it showed before. */
  lemma {:induction false} ListingOrder(slots: seq<Slot>, held: seq<string>, capacity: nat, dir: string,
                                        entries: seq<DirEntry>)
    requires Shows(slots, held, capacity)
    ensures Shows(AfterListing(slots, capacity, dir, entries), Stored(held, capacity, Names(dir, entries)) + held,
                  capacity)
    decreases |entries|
  {
    if entries == [] {
      assert [] + held == held;
    } else {
      var child := ChildPath(dir, entries[0].name);
      RoundContents(slots, held, capacity, child, entries[0], child);
      var after, rest := AfterChild(slots, capacity, child, entries[0]), Names(dir, entries[1..]);
      assert Names(dir, entries)[1..] == rest;
      if child in Front(held, capacity) {
        ListingOrder(after, held, capacity, dir, entries[1..]);
      } else {
        ListingOrder(after, [child] + held, capacity, dir, entries[1..]);
        assert Stored([child] + held, capacity, rest) + [child] + held
            == Stored([child] + held, capacity, rest) + ([child] + held);
      }
    }
  }

  /** An entry that was stored is unresolved; any other is as before. */
  lemma {:induction false} ListingContents(slots: seq<Slot>, held: seq<string>, capacity: nat, dir: string,
                                           entries: seq<DirEntry>, path: string)
    requires Shows(slots, held, capacity) && path in Contents(AfterListing(slots, capacity, dir, entries))
    ensures var after := Contents(AfterListing(slots, capacity, dir, entries));
            if path in Stored(held, capacity, Names(dir, entries)) then !after[path].resolved
            else path in Contents(slots) && after[path] == Contents(slots)[path]
    decreases |entries|
  {
    if entries != [] {
      var child := ChildPath(dir, entries[0].name);
      RoundContents(slots, held, capacity, child, entries[0], path);
      var after := AfterChild(slots, capacity, child, entries[0]);
      assert Names(dir, entries)[1..] == Names(dir, entries[1..]);
      if child in Front(held, capacity) {
        ListingContents(after, held, capacity, dir, entries[1..], path);
      } else {
        ListingContents(after, [child] + held, capacity, dir, entries[1..], path);
      }
    }
  }

  // ---- Which entries a listing downgrades -------------------------------------------------------------

  /** The resolved entry under this path is still cached, but without its extents. */
  predicate Downgraded(before: map<string, CachedStat>, after: map<string, CachedStat>, path: string) {
    path in before && path in after && before[path].resolved && !after[path].resolved
  }

  /** The cache as it is before a listing: its order is its keys. */
  predicate Cache(slots: seq<Slot>, capacity: nat) {
    capacity > 0 && |slots| <= capacity && Distinct(slots)
  }

  lemma InKeys(slots: seq<Slot>, path: string)
    ensures path in Contents(slots) <==> path in Keys(slots)
  {
    ContentsKeys(slots, path);
    if path in Keys(slots) {
      var i :| 0 <= i < |slots| && Keys(slots)[i] == path;
      assert slots[i].0 == path;
    }
    if i :| 0 <= i < |slots| && slots[i].0 == path {
      assert Keys(slots)[i] == path;
    }
  }

  lemma InFront(a: seq<string>, b: seq<string>, n: nat, path: string)
    requires path in a
    ensures path in Front(a + b, n) <==> path in Front(a, n)
  {
    if n <= |a| {
      assert (a + b)[..n] == a[..n];
    } else {
      assert forall i :: 0 <= i < |a| ==> Front(a + b, n)[i] == a[i];
    }
  }

  /** A resolved entry is downgraded exactly when its name is among the last `capacity` names stored. */
  lemma DowngradedIffStored(slots: seq<Slot>, capacity: nat, dir: string, entries: seq<DirEntry>, path: string)
    requires Cache(slots, capacity) && path in Contents(slots) && Contents(slots)[path].resolved
    ensures Downgraded(Contents(slots), Contents(AfterListing(slots, capacity, dir, entries)), path)
       <==> path in Front(Stored(Keys(slots), capacity, Names(dir, entries)), capacity)
  {
    var held, after := Keys(slots), AfterListing(slots, capacity, dir, entries);
    var stored := Stored(held, capacity, Names(dir, entries));
    ListingOrder(slots, held, capacity, dir, entries);
    InKeys(after, path);
    if path in Contents(after) {
      ListingContents(slots, held, capacity, dir, entries, path);
    }
    if path in stored {
      InFront(stored, held, capacity, path);
    }
  }

  predicate At(s: seq<string>, j: nat, path: string) {
    j < |s| && s[j] == path && path !in s[..j]
  }

  /** This many stores come before round i of the listing. */
  function StoresBefore(held: seq<string>, capacity: nat, names: seq<string>, i: nat): nat
    requires i <= |names|
  {
    |Stored(held, capacity, names[..i])|
  }

  lemma StoresBeforeCons(held: seq<string>, capacity: nat, names: seq<string>, i: nat)
    requires 0 < i <= |names|
    ensures StoresBefore(held, capacity, names, i)
         == if names[0] in Front(held, capacity) then StoresBefore(held, capacity, names[1..], i - 1)
            else StoresBefore([names[0]] + held, capacity, names[1..], i - 1) + 1
  {
    assert names[..i][1..] == names[1..][..i - 1];
  }

  /** Round i finds `path`, which stood at recency position j, pushed out. */
  predicate PushedOutAt(held: seq<string>, capacity: nat, names: seq<string>, j: nat, path: string, i: nat) {
    i < |names| && names[i] == path && StoresBefore(held, capacity, names, i) + j >= capacity
  }

  ghost predicate PushedOut(held: seq<string>, capacity: nat, names: seq<string>, j: nat, path: string) {
    exists i: nat :: PushedOutAt(held, capacity, names, j, path, i)
  }

  /**
   A name at recency position j is stored exactly when some round reaches it after at least
   capacity - j stores.
   */
  lemma {:induction false} StoredIffPushedOut(held: seq<string>, capacity: nat, names: seq<string>, j: nat,
                                              path: string)
    requires At(held, j, path)
    ensures path in Stored(held, capacity, names) <==> PushedOut(held, capacity, names, j, path)
    decreases |names|
  {
    if names != [] {
      var n := names[0];
      var cached := n in Front(held, capacity);
      if n == path {
        assert cached <==> j < capacity;
        assert StoresBefore(held, capacity, names, 0) == 0;
      }
      if !cached && n == path {
        assert PushedOutAt(held, capacity, names, j, path, 0);
      } else {
        var held', j' := if cached then held else [n] + held, if cached then j else j + 1;
        StoredIffPushedOut(held', capacity, names[1..], j', path);
        if i: nat :| PushedOutAt(held', capacity, names[1..], j', path, i) {
          StoresBeforeCons(held, capacity, names, i + 1);
          assert PushedOutAt(held, capacity, names, j, path, i + 1);
        }
        if i: nat :| PushedOutAt(held, capacity, names, j, path, i) {
          StoresBeforeCons(held, capacity, names, i);
          assert PushedOutAt(held', capacity, names[1..], j', path, i - 1);
        }
      }
    }
  }

  lemma {:induction false} StoredIsShort(held: seq<string>, capacity: nat, names: seq<string>)
    ensures |Stored(held, capacity, names)| <= |names|
    decreases |names|
  {
    if names != [] {
      StoredIsShort(held, capacity, names[1..]);
      StoredIsShort([names[0]] + held, capacity, names[1..]);
    }
  }

  /** One round on what has been stored. */
  function AfterRound(held: seq<string>, capacity: nat, stored: seq<string>, n: string): seq<string> {
    if n in Front(stored + held, capacity) then stored else [n] + stored
  }

  lemma {:induction false} StoredSnoc(held: seq<string>, capacity: nat, names: seq<string>, n: string)
    ensures Stored(held, capacity, names + [n]) == AfterRound(held, capacity, Stored(held, capacity, names), n)
    decreases |names|
  {
    var more := names + [n];
    if names == [] {
      assert more[0] == n && more[1..] == [];
      assert [] + held == held;
    } else {
      assert more[0] == names[0] && more[1..] == names[1..] + [n];
      var held' := if names[0] in Front(held, capacity) then held else [names[0]] + held;
      StoredSnoc(held', capacity, names[1..], n);
      var stored := Stored(held', capacity, names[1..]);
      assert stored + ([names[0]] + held) == stored + [names[0]] + held;
      assert [n] + stored + [names[0]] == [n] + (stored + [names[0]]);
    }
  }

  /** What has been stored stays behind what is stored later. */
  lemma {:induction false} StoredSuffix(held: seq<string>, capacity: nat, names: seq<string>, m: nat)
    requires m <= |names|
    ensures var all, early := Stored(held, capacity, names), Stored(held, capacity, names[..m]);
            |early| <= |all| && all[|all| - |early|..] == early
    decreases |names|
  {
    if m == |names| {
      assert names[..m] == names;
    } else {
      var front, n := names[..|names| - 1], names[|names| - 1];
      assert names == front + [n] && names[..m] == front[..m];
      StoredSnoc(held, capacity, front, n);
      StoredSuffix(held, capacity, front, m);
    }
  }

  /** Round i stores its name. */
  predicate StoredAt(held: seq<string>, capacity: nat, names: seq<string>, i: nat) {
    i < |names| && names[i] !in Front(Stored(held, capacity, names[..i]) + held, capacity)
  }

  lemma RoundStores(held: seq<string>, capacity: nat, names: seq<string>, i: nat)
    requires StoredAt(held, capacity, names, i)
    ensures Stored(held, capacity, names[..i + 1]) == [names[i]] + Stored(held, capacity, names[..i])
  {
    assert names[..i + 1] == names[..i] + [names[i]];
    StoredSnoc(held, capacity, names[..i], names[i]);
  }

  /** Each name that was stored was stored by a round. */
  lemma {:induction false} StoringRound(held: seq<string>, capacity: nat, names: seq<string>, p: nat) returns (i: nat)
    requires p < |Stored(held, capacity, names)|
    ensures StoredAt(held, capacity, names, i) && names[i] == Stored(held, capacity, names)[p]
    ensures |Stored(held, capacity, names)| == p + StoresBefore(held, capacity, names, i + 1)
    decreases |names|
  {
    var front, n := names[..|names| - 1], names[|names| - 1];
    assert names == front + [n];
    StoredSnoc(held, capacity, front, n);
    var cached := n in Front(Stored(held, capacity, front) + held, capacity);
    if !cached && p == 0 {
      i := |front|;
      assert names[..i] == front && names[..i + 1] == names;
    } else {
      i := StoringRound(held, capacity, front, if cached then p else p - 1);
      assert names[..i] == front[..i] && names[..i + 1] == front[..i + 1];
    }
  }

  /** Fewer than `window` stores follow round i. */
  predicate Late(held: seq<string>, capacity: nat, names: seq<string>, window: nat, i: nat) {
    i < |names| && |Stored(held, capacity, names)| < StoresBefore(held, capacity, names, i + 1) + window
  }

  /** Round i stores `path`, and it stays among the last `window` stores. */
  predicate StoredLate(held: seq<string>, capacity: nat, names: seq<string>, window: nat, path: string, i: nat) {
    StoredAt(held, capacity, names, i) && names[i] == path && Late(held, capacity, names, window, i)
  }

  /** A name is among the last `window` stores exactly when a late enough round stores it. */
  lemma StoredLateIff(held: seq<string>, capacity: nat, names: seq<string>, window: nat, path: string)
    ensures path in Front(Stored(held, capacity, names), window)
       <==> exists i: nat :: StoredLate(held, capacity, names, window, path, i)
  {
    var all := Stored(held, capacity, names);
    if path in Front(all, window) {
      var p :| 0 <= p < |Front(all, window)| && Front(all, window)[p] == path;
      var i := StoringRound(held, capacity, names, p);
      assert StoredLate(held, capacity, names, window, path, i);
    }
    if i: nat :| StoredLate(held, capacity, names, window, path, i) {
      RoundStores(held, capacity, names, i);
      StoredSuffix(held, capacity, names, i + 1);
      var p := |all| - StoresBefore(held, capacity, names, i + 1);
      assert all[p..][0] == path;
      assert Front(all, window)[p] == path;
    }
  }

  /**
   Round i finds `path`, which stood at recency position j, pushed out: at least capacity - j stores came
   before, none of the last `capacity` ones its own, and fewer than `capacity` follow.
   */
  predicate LostAt(held: seq<string>, capacity: nat, names: seq<string>, j: nat, path: string, i: nat) {
    && PushedOutAt(held, capacity, names, j, path, i)
    && path !in Front(Stored(held, capacity, names[..i]), capacity)
    && Late(held, capacity, names, capacity, i)
  }

  ghost predicate Lost(held: seq<string>, capacity: nat, names: seq<string>, j: nat, path: string) {
    exists i: nat :: LostAt(held, capacity, names, j, path, i)
  }

  /** While j more stores fit, a name at position j is still in front. */
  lemma StillInFront(stored: seq<string>, held: seq<string>, capacity: nat, j: nat, path: string)
    requires At(held, j, path)
    ensures path in Front(stored + held, capacity) <==> path in Front(stored, capacity) || |stored| + j < capacity
  {
    if path in stored {
      InFront(stored, held, capacity, path);
    } else {
      assert (stored + held)[|stored| + j] == path;
      if |stored| + j < capacity {
        assert Front(stored + held, capacity)[|stored| + j] == path;
      } else {
        assert forall i :: 0 <= i < capacity && i < |stored + held| ==> (stored + held)[i] != path by {
          assert forall i :: |stored| <= i < |stored| + j ==> (stored + held)[i] == held[..j][i - |stored|];
        }
      }
    }
  }

  lemma LostIffStoredLate(held: seq<string>, capacity: nat, names: seq<string>, j: nat, path: string, i: nat)
    requires At(held, j, path)
    ensures LostAt(held, capacity, names, j, path, i) <==> StoredLate(held, capacity, names, capacity, path, i)
  {
    if i < |names| {
      StillInFront(Stored(held, capacity, names[..i]), held, capacity, j, path);
    }
  }

  /**
   The exact condition, for listings of any length: the resolved entry at recency position j is
   downgraded if and only if some round finds it pushed out and stores it for good.
   */
  lemma ListingDowngradesIff(slots: seq<Slot>, capacity: nat, dir: string, entries: seq<DirEntry>, j: nat)
    requires Cache(slots, capacity) && j < |slots| && slots[j].1.resolved
    ensures Downgraded(Contents(slots), Contents(AfterListing(slots, capacity, dir, entries)), slots[j].0)
       <==> Lost(Keys(slots), capacity, Names(dir, entries), j, slots[j].0)
  {
    var held, names, path := Keys(slots), Names(dir, entries), slots[j].0;
    SlotIsContents(slots, j);
    DowngradedIffStored(slots, capacity, dir, entries, path);
    StoredLateIff(held, capacity, names, capacity, path);
    forall i: nat
      ensures LostAt(held, capacity, names, j, path, i) <==> StoredLate(held, capacity, names, capacity, path, i)
    {
      LostIffStoredLate(held, capacity, names, j, path, i);
    }
  }

  /** Up to `capacity` entries it is enough that a round reaches the name after at least capacity - j stores. */
  lemma ShortListingDowngradesIff(slots: seq<Slot>, capacity: nat, dir: string, entries: seq<DirEntry>, j: nat)
    requires Cache(slots, capacity) && j < |slots| && slots[j].1.resolved && |entries| <= capacity
    ensures Downgraded(Contents(slots), Contents(AfterListing(slots, capacity, dir, entries)), slots[j].0)
       <==> PushedOut(Keys(slots), capacity, Names(dir, entries), j, slots[j].0)
  {
    SlotIsContents(slots, j);
    DowngradedIffStored(slots, capacity, dir, entries, slots[j].0);
    StoredIffPushedOut(Keys(slots), capacity, Names(dir, entries), j, slots[j].0);
    StoredIsShort(Keys(slots), capacity, Names(dir, entries));
  }

  lemma {:induction false} SlotIsContents(slots: seq<Slot>, j: nat)
    requires Distinct(slots) && j < |slots|
    ensures slots[j].0 in Contents(slots) && Contents(slots)[slots[j].0] == slots[j].1
    ensures At(Keys(slots), j, slots[j].0)
  {
    if j > 0 {
      SlotIsContents(slots[1..], j - 1);
    }
  }

  /** Slot j is resolved, and its name is pushed out and stored for good. */
  ghost predicate LosesExtents(slots: seq<Slot>, capacity: nat, names: seq<string>, j: nat)
    requires j < |slots|
  {
    slots[j].1.resolved && Lost(Keys(slots), capacity, names, j, slots[j].0)
  }

  lemma DowngradedIsSlot(slots: seq<Slot>, after: map<string, CachedStat>, path: string) returns (j: nat)
    requires Distinct(slots) && Downgraded(Contents(slots), after, path)
    ensures j < |slots| && slots[j].0 == path && slots[j].1.resolved
  {
    ContentsKeys(slots, path);
    j :| 0 <= j < |slots| && slots[j].0 == path;
    SlotIsContents(slots, j);
  }

  /** A listing of any length keeps resolved entries resolved if and only if none loses its extents. */
  lemma ListingKeepsResolvedIff(slots: seq<Slot>, capacity: nat, dir: string, entries: seq<DirEntry>)
    requires Cache(slots, capacity)
    ensures NeverDowngrades(Contents(slots), Contents(AfterListing(slots, capacity, dir, entries)))
       <==> forall j :: 0 <= j < |slots| ==> !LosesExtents(slots, capacity, Names(dir, entries), j)
  {
    var before, after := Contents(slots), Contents(AfterListing(slots, capacity, dir, entries));
    if path :| Downgraded(before, after, path) {
      var j := DowngradedIsSlot(slots, after, path);
      ListingDowngradesIff(slots, capacity, dir, entries, j);
      assert LosesExtents(slots, capacity, Names(dir, entries), j);
    } else {
      assert forall path :: path in before && path in after ==> !Downgraded(before, after, path);
      forall j | 0 <= j < |slots|
        ensures !LosesExtents(slots, capacity, Names(dir, entries), j)
      {
        if slots[j].1.resolved {
          ListingDowngradesIff(slots, capacity, dir, entries, j);
        }
      }
    }
  }

  // ---- Counting stores in advance ----------------------------------------------------------------------

  function Uncached(held: seq<string>, names: seq<string>): set<string> {
    set n | n in names && n !in held
  }

  lemma {:induction false} UncachedIsStored(held: seq<string>, capacity: nat, names: seq<string>, n: string)
    requires n in names && n !in held
    ensures n in Stored(held, capacity, names)
    decreases |names|
  {
    if names[0] != n {
      var held' := if names[0] in Front(held, capacity) then held else [names[0]] + held;
      UncachedIsStored(held', capacity, names[1..], n);
    }
  }

  lemma {:induction false} DistinctAtMostLength(s: seq<string>, a: set<string>)
    requires forall x :: x in a ==> x in s
    ensures |a| <= |s|
    decreases |s|
  {
    if s != [] {
      DistinctAtMostLength(s[1..], a - {s[0]});
    }
  }

  /** Distinct names that are not cached are all stored, so enough of them in front push the entry out. */
  lemma UncachedNamesPushOut(held: seq<string>, capacity: nat, names: seq<string>, j: nat, path: string, i: nat)
    requires i < |names| && names[i] == path && |Uncached(held, names[..i])| + j >= capacity
    ensures PushedOut(held, capacity, names, j, path)
  {
    forall n | n in Uncached(held, names[..i])
      ensures n in Stored(held, capacity, names[..i])
    {
      UncachedIsStored(held, capacity, names[..i], n);
    }
    DistinctAtMostLength(Stored(held, capacity, names[..i]), Uncached(held, names[..i]));
    assert PushedOutAt(held, capacity, names, j, path, i);
  }

  /** A full cache whose last entry is resolved, and a listing of a new child followed by that one. */
  lemma ListingDowngrades(slots: seq<Slot>, capacity: nat, dir: string, x: DirEntry, y: DirEntry)
    requires Cache(slots, capacity) && |slots| == capacity >= 2 && slots[capacity - 1].1.resolved
    requires ChildPath(dir, x.name) !in Contents(slots) && ChildPath(dir, y.name) == slots[capacity - 1].0
    ensures !NeverDowngrades(Contents(slots), Contents(AfterListing(slots, capacity, dir, [x, y])))
  {
    var names := Names(dir, [x, y]);
    InKeys(slots, names[0]);
    assert names[..1] == [names[0]];
    assert Uncached(Keys(slots), names[..1]) == {names[0]};
    UncachedNamesPushOut(Keys(slots), capacity, names, capacity - 1, names[1], 1);
    ShortListingDowngradesIff(slots, capacity, dir, [x, y], capacity - 1);
  }

  /**
   Names that are cached count too once they have been pushed out themselves: with room for two, one new
   name pushes out the last entry, and listing that pushes out the first.
   */
  lemma PushedOutNamesPushOut(x: string, y: string, n: string)
    requires x != y && n != x && n != y
    ensures |Uncached([x, y], [n, y])| == 1 && PushedOut([x, y], 2, [n, y, x], 0, x)
  {
    assert Uncached([x, y], [n, y]) == {n};
    assert [n, y, x][..2] == [n, y] && [n, y][1..] == [y] && [y][1..] == [];
    assert Front([n] + [x, y], 2) == [n, x];
    assert Stored([n] + [x, y], 2, [y]) == [y];
    assert PushedOutAt([x, y], 2, [n, y, x], 0, x, 2);
  }
}
