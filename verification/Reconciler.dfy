/** src/main.rs: scan_and_update, which brings the mounted volumes in line with the partitions found. */
module Reconciler {
  import opened Basics
  import opened Keys
  import opened Letters
  import opened Mounts

  /** The daemon's state: the mount table with its handles, and known_partitions. */
  datatype World = World(table: Table, known: set<PartitionKey>)

  /** What the outside does to one mount attempt: letters in use by others, and where it fails. */
  datatype Attempt = Attempt(foreign: set<char>, outcome: Outcome)

  function MountedLetters(mounts: map<string, MountedVolume>): set<char> {
    set t | t in mounts :: mounts[t].letter
  }

  /** The first letter the OS reports as free; it never reports a mounted one. */
  function Offer(mounts: map<string, MountedVolume>, foreign: set<char>): Option<char> {
    var free := FreeFrom(foreign + MountedLetters(mounts), First());
    if free == [] then None else Some(free[0])
  }

  function Current(partitions: seq<Partition>): set<PartitionKey> {
    set i | 0 <= i < |partitions| :: partitions[i].Key()
  }

  // ---- One scan as a function -----------------------------------------------------------------

  function MountOne(w: World, p: Partition, a: Attempt): World {
    if p.Key() in w.known then w
    else
      var letter := Offer(w.table.mounts, a.foreign);
      if letter == None then w
      else World(AfterMount(w.table, p, letter.value, a.outcome),
                 if a.outcome.Succeeds? then w.known + {p.Key()} else w.known)
  }

  function MountAll(w: World, partitions: seq<Partition>, env: seq<Attempt>): World
    requires |partitions| == |env|
    decreases |partitions|
  {
    if partitions == [] then w
    else MountAll(MountOne(w, partitions[0], env[0]), partitions[1..], env[1..])
  }

  function Texts(keys: set<PartitionKey>): set<string> {
    set k | k in keys :: KeyText(k)
  }

  function HandlesOfKeys(mounts: map<string, MountedVolume>, keys: set<PartitionKey>): set<nat> {
    set k, h | k in keys && h in HandlesOf(mounts, KeyText(k)) :: h
  }

  function UnmountAll(w: World, gone: set<PartitionKey>): World {
    var t := w.table;
    World(Table(t.mounts - Texts(gone), t.live - HandlesOfKeys(t.mounts, gone), t.next), w.known - gone)
  }

  function Reconcile(w: World, partitions: seq<Partition>, env: seq<Attempt>): World
    requires |partitions| == |env|
  {
    var mounted := MountAll(w, partitions, env);
    UnmountAll(mounted, mounted.known - Current(partitions))
  }

  /** Unmounting is per partition, and the order does not matter. */
  lemma UnmountOneMore(w: World, gone: set<PartitionKey>, k: PartitionKey)
    requires k !in gone
    ensures var u := UnmountAll(w, gone);
            UnmountAll(w, gone + {k}) == World(AfterUnmount(u.table, k), u.known - {k})
  {
    var u, more, m := UnmountAll(w, gone), gone + {k}, w.table.mounts;
    if KeyText(k) in Texts(gone) {
      var l :| l in gone && KeyText(l) == KeyText(k);
      KeyTextIsInjective(k, l);
    }
    assert Texts(more) == Texts(gone) + {KeyText(k)};
    assert m - Texts(more) == u.table.mounts - {KeyText(k)};
    assert HandlesOf(u.table.mounts, KeyText(k)) == HandlesOf(m, KeyText(k));
    assert HandlesOfKeys(m, more) == HandlesOfKeys(m, gone) + HandlesOf(m, KeyText(k)) by {
      assert forall h :: h in HandlesOf(m, KeyText(k)) ==> h in HandlesOfKeys(m, more);
    }
  }

  class Daemon {
    const manager: MountManager
    var known: set<PartitionKey>

    ghost predicate Valid()
      reads this, manager, manager.handles
    {
      manager.Valid()
    }

    ghost function View(): World
      reads this, manager, manager.handles
    {
      World(manager.View(), known)
    }

    constructor ()
      ensures Valid() && fresh(manager) && fresh(manager.handles)
      ensures View() == World(Table(map[], {}, 0), {})
    {
      manager := new MountManager();
      known := {};
    }

    /** A failed scan changes nothing. */
    method ScanAndUpdate(scan: Result<seq<Partition>>, env: seq<Attempt>)
      requires Valid() && (scan.Ok? ==> |env| == |scan.value|)
      modifies this, manager, manager.handles
      ensures Valid()
      ensures View() == if scan.Ok? then Reconcile(old(View()), scan.value, env) else old(View())
    {
      if scan == Err {
        return;
      }
      MountNew(scan.value, env);
      UnmountRemoved(known - Current(scan.value));
    }

    method MountNew(partitions: seq<Partition>, env: seq<Attempt>)
      requires Valid() && |partitions| == |env|
      modifies this, manager, manager.handles
      ensures Valid() && View() == MountAll(old(View()), partitions, env)
    {
      ghost var start := View();
      for i := 0 to |partitions|
        invariant Valid()
        invariant MountAll(View(), partitions[i..], env[i..]) == MountAll(start, partitions, env)
      {
        assert partitions[i..][1..] == partitions[i + 1..] && env[i..][1..] == env[i + 1..];
        MountIfNew(partitions[i], env[i]);
      }
    }

    method UnmountRemoved(gone: set<PartitionKey>)
      requires Valid()
      modifies this, manager, manager.handles
      ensures Valid() && View() == UnmountAll(old(View()), gone)
    {
      var removed := gone;
      ghost var mounted := View();
      assert UnmountAll(mounted, {}) == mounted;
      while removed != {}
        invariant Valid() && removed <= gone
        invariant View() == UnmountAll(mounted, gone - removed)
        decreases |removed|
      {
        var k :| k in removed;
        UnmountOneMore(mounted, gone - removed, k);
        assert gone - removed + {k} == gone - (removed - {k});
        manager.UnmountPartition(k);
        known := known - {k};
        removed := removed - {k};
      }
    }

    /** The body of the mounting loop. */
    method MountIfNew(p: Partition, a: Attempt)
      requires Valid()
      modifies this, manager, manager.handles
      ensures Valid() && View() == MountOne(old(View()), p, a)
    {
      if p.Key() !in known {
        var letters := FindAvailableDriveLetters(a.foreign + MountedLetters(manager.mounts));
        if letters != [] {
          var ok := manager.MountPartition(p, letters[0], a.outcome);
          if ok {
            known := known + {p.Key()};
          }
        }
      }
    }
  }
}
