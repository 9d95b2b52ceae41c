/** The bounded least-recently-used cache behind ApfsDriver::stat_cache, most recent entry first. */
module StatCache {
  import opened Basics
  import opened Volume

  const STAT_CACHE_CAPACITY := 4096

  type Slot = (string, CachedStat)

  function Lookup(slots: seq<Slot>, path: string): Option<CachedStat> {
    if slots == [] then None
    else if slots[0].0 == path then Some(slots[0].1)
    else Lookup(slots[1..], path)
  }

  function Without(slots: seq<Slot>, path: string): seq<Slot> {
    if slots == [] then []
    else if slots[0].0 == path then slots[1..]
    else [slots[0]] + Without(slots[1..], path)
  }

  predicate Distinct(slots: seq<Slot>) {
    forall i, j :: 0 <= i < j < |slots| ==> slots[i].0 != slots[j].0
  }

  /** What the cache remembers, without the order. */
  function Contents(slots: seq<Slot>): map<string, CachedStat> {
    if slots == [] then map[] else Contents(slots[1..])[slots[0].0 := slots[0].1]
  }

  lemma {:induction false} ContentsKeys(slots: seq<Slot>, path: string)
    ensures path in Contents(slots) <==> exists i :: 0 <= i < |slots| && slots[i].0 == path
  {
    if slots != [] {
      ContentsKeys(slots[1..], path);
      if i :| 0 <= i < |slots| && slots[i].0 == path {
        if i > 0 {
          assert slots[1..][i - 1].0 == path;
        }
      }
      if j :| 0 <= j < |slots[1..]| && slots[1..][j].0 == path {
        assert slots[j + 1].0 == path;
      }
    }
  }

  lemma {:induction false} LookupIsContents(slots: seq<Slot>, path: string)
    ensures Lookup(slots, path) == if path in Contents(slots) then Some(Contents(slots)[path]) else None
  {
    if slots != [] {
      LookupIsContents(slots[1..], path);
    }
  }

  lemma HeadIsFresh(slots: seq<Slot>)
    requires Distinct(slots) && slots != []
    ensures slots[0].0 !in Contents(slots[1..])
  {
    ContentsKeys(slots[1..], slots[0].0);
    assert forall j :: 0 <= j < |slots[1..]| ==> slots[1..][j].0 == slots[j + 1].0;
  }

  lemma {:induction false} ContentsWithout(slots: seq<Slot>, path: string)
    requires Distinct(slots)
    ensures Contents(Without(slots, path)) == Contents(slots) - {path}
    ensures Distinct(Without(slots, path))
    ensures forall i :: 0 <= i < |Without(slots, path)| ==> Without(slots, path)[i].0 != path
    ensures |Without(slots, path)| == if path in Contents(slots) then |slots| - 1 else |slots|
  {
    if slots != [] {
      HeadIsFresh(slots);
      if slots[0].0 != path {
        ContentsWithout(slots[1..], path);
        var rest := Without(slots[1..], path);
        assert Without(slots, path)[1..] == rest;
        forall j | 0 <= j < |rest|
          ensures rest[j].0 != slots[0].0
        {
          ContentsKeys(rest, rest[j].0);
          assert rest[j].0 in Contents(slots[1..]);
        }
      } else {
        assert Contents(slots[1..]) == Contents(slots) - {path};
      }
    }
  }

  lemma {:induction false} ContentsWithoutLast(slots: seq<Slot>)
    requires Distinct(slots) && slots != []
    ensures Contents(slots[..|slots| - 1]) == Contents(slots) - {slots[|slots| - 1].0}
  {
    var front, last := slots[..|slots| - 1], slots[|slots| - 1].0;
    if |slots| > 1 {
      ContentsWithoutLast(slots[1..]);
      assert front[1..] == slots[1..][..|slots| - 2];
      assert slots[1..][|slots| - 2] == slots[|slots| - 1];
      assert slots[0].0 != last;
    }
  }

  lemma {:induction false} ContentsSize(slots: seq<Slot>)
    requires Distinct(slots)
    ensures |Contents(slots)| == |slots|
  {
    if slots != [] {
      ContentsSize(slots[1..]);
      HeadIsFresh(slots);
    }
  }

  lemma FrontIsContents(path: string, c: CachedStat, slots: seq<Slot>)
    ensures Contents([(path, c)] + slots) == Contents(slots)[path := c]
  {
    assert ([(path, c)] + slots)[1..] == slots;
  }

  // ---- The three operations on the slots ---------------------------------------------------------

  /** A hit moves the entry to the front. */
  function Touch(slots: seq<Slot>, path: string): seq<Slot> {
    match Lookup(slots, path)
    case None => slots
    case Some(c) => [(path, c)] + Without(slots, path)
  }

  /** A put goes to the front; a new path in a full cache pushes the last entry out. */
  function Insert(slots: seq<Slot>, capacity: nat, path: string, c: CachedStat): seq<Slot> {
    if Lookup(slots, path) == None && |slots| == capacity && capacity > 0 then [(path, c)] + slots[..capacity - 1]
    else [(path, c)] + Without(slots, path)
  }

  /** A lookup changes the order only. */
  lemma TouchKeepsContents(slots: seq<Slot>, path: string)
    requires Distinct(slots)
    ensures Distinct(Touch(slots, path)) && |Touch(slots, path)| == |slots|
    ensures Contents(Touch(slots, path)) == Contents(slots)
  {
    LookupIsContents(slots, path);
    ContentsWithout(slots, path);
    if path in Contents(slots) {
      FrontIsContents(path, Contents(slots)[path], Without(slots, path));
    }
  }

  /** What a put into a cache does to its contents: at most one eviction, of the least recent entry, then a store. */
  lemma InsertIsEvictThenStore(slots: seq<Slot>, capacity: nat, path: string, c: CachedStat)
    requires Distinct(slots) && |slots| <= capacity && capacity > 0
    ensures Distinct(Insert(slots, capacity, path, c)) && |Insert(slots, capacity, path, c)| <= capacity
    ensures path in Contents(slots) || |slots| < capacity ==>
              Contents(Insert(slots, capacity, path, c)) == Contents(slots)[path := c]
    ensures path !in Contents(slots) && |slots| == capacity ==>
              Contents(Insert(slots, capacity, path, c)) == (Contents(slots) - {slots[capacity - 1].0})[path := c]
  {
    LookupIsContents(slots, path);
    ContentsWithout(slots, path);
    if path !in Contents(slots) && |slots| == capacity {
      ContentsWithoutLast(slots);
      ContentsKeys(slots, path);
      FrontIsContents(path, c, slots[..capacity - 1]);
    } else {
      FrontIsContents(path, c, Without(slots, path));
    }
  }

  // ---- The order --------------------------------------------------------------------------------

  /** The entry at i is gone and the others keep their order. */
  lemma {:induction false} WithoutAt(slots: seq<Slot>, i: nat)
    requires Distinct(slots) && i < |slots|
    ensures Without(slots, slots[i].0) == slots[..i] + slots[i + 1..]
    ensures Lookup(slots, slots[i].0) == Some(slots[i].1)
    decreases |slots|
  {
    if i > 0 {
      WithoutAt(slots[1..], i - 1);
      assert slots[1..][..i - 1] == slots[1..i] && slots[1..][i..] == slots[i + 1..];
      assert [slots[0]] + (slots[1..i] + slots[i + 1..]) == slots[..i] + slots[i + 1..];
    }
  }

  lemma {:induction false} WithoutMissing(slots: seq<Slot>, path: string)
    requires forall i :: 0 <= i < |slots| ==> slots[i].0 != path
    ensures Without(slots, path) == slots && Lookup(slots, path) == None
  {
    if slots != [] {
      WithoutMissing(slots[1..], path);
    }
  }

  /** A hit becomes the most recent entry; the others keep their order. A miss changes nothing. */
  lemma TouchMovesToFront(slots: seq<Slot>, path: string)
    requires Distinct(slots)
    ensures forall i :: 0 <= i < |slots| && slots[i].0 == path ==>
              Touch(slots, path) == [slots[i]] + slots[..i] + slots[i + 1..]
    ensures (forall i :: 0 <= i < |slots| ==> slots[i].0 != path) ==> Touch(slots, path) == slots
  {
    if i :| 0 <= i < |slots| && slots[i].0 == path {
      WithoutAt(slots, i);
    } else {
      WithoutMissing(slots, path);
    }
  }

  function Cut(slots: seq<Slot>, n: nat): seq<Slot> {
    if |slots| <= n then slots else slots[..n]
  }

  /**
   A put becomes the most recent entry. An entry it replaces leaves its place; a new one in a full cache
   costs the last one. The others keep their order.
   */
  lemma InsertPutsInFront(slots: seq<Slot>, capacity: nat, path: string, c: CachedStat)
    requires Distinct(slots) && |slots| <= capacity && capacity > 0
    ensures forall i :: 0 <= i < |slots| && slots[i].0 == path ==>
              Insert(slots, capacity, path, c) == [(path, c)] + slots[..i] + slots[i + 1..]
    ensures (forall i :: 0 <= i < |slots| ==> slots[i].0 != path) ==>
              Insert(slots, capacity, path, c) == [(path, c)] + Cut(slots, capacity - 1)
  {
    if i :| 0 <= i < |slots| && slots[i].0 == path {
      WithoutAt(slots, i);
    } else {
      WithoutMissing(slots, path);
    }
  }

  class LruCache {
    const capacity: nat
    var slots: seq<Slot>

    ghost predicate Valid()
      reads this
    {
      capacity > 0 && |slots| <= capacity && Distinct(slots)
    }

    ghost function View(): map<string, CachedStat>
      reads this
    {
      Contents(slots)
    }

    constructor (capacity: nat)
      requires capacity > 0
      ensures Valid() && this.capacity == capacity && slots == []
    {
      this.capacity := capacity;
      slots := [];
    }

    method Get(path: string) returns (r: Option<CachedStat>)
      requires Valid()
      modifies this
      ensures Valid() && slots == Touch(old(slots), path) && View() == old(View())
      ensures r == if path in View() then Some(View()[path]) else None
    {
      r := Lookup(slots, path);
      LookupIsContents(slots, path);
      TouchKeepsContents(slots, path);
      if r.Some? {
        slots := [(path, r.value)] + Without(slots, path);
      }
    }

    /** Unlike Get, this does not touch the order. */
    method Contains(path: string) returns (b: bool)
      requires Valid()
      ensures b <==> path in View()
    {
      LookupIsContents(slots, path);
      b := Lookup(slots, path).Some?;
    }

    method Put(path: string, c: CachedStat)
      requires Valid()
      modifies this
      ensures Valid() && slots == Insert(old(slots), capacity, path, c)
    {
      InsertIsEvictThenStore(slots, capacity, path, c);
      if Lookup(slots, path) == None && |slots| == capacity {
        slots := [(path, c)] + slots[..capacity - 1];
      } else {
        slots := [(path, c)] + Without(slots, path);
      }
    }
  }
}
