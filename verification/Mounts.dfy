/**
 The mount table of src/mount_manager.rs with the disk handles a mounted volume owns, step by step as
 a mount opens, reopens and, on failure, drops them.
 */
module Mounts {
  import opened Basics
  import opened Keys

  datatype Partition = Partition(disk: u32, number: u32, device: string, offset: u64, size: u64) {
    function Key(): PartitionKey {
      (disk, number)
    }
  }

  /** A partition's key is its disk and its number, and nothing else. */
  lemma KeyIdentifies(p: Partition, q: Partition)
    ensures KeyText(p.Key()) == KeyText(q.Key()) <==> p.disk == q.disk && p.number == q.number
  {
    if KeyText(p.Key()) == KeyText(q.Key()) {
      KeyTextIsInjective(p.Key(), q.Key());
    }
  }

  /** The driver inside a mounted host owns two handles: `disk` (in ApfsVolume) and `raw`. */
  datatype MountedVolume = MountedVolume(partition: Partition, letter: char, disk: nat, raw: nat)

  /** The first call of mount_partition that fails, if any. */
  datatype Outcome =
    OpenFails | ReopenRawFails | ReopenFails | VolumeOpenFails | HostFails | MountFails | StartFails | Succeeds

  // ---- Open handles of the process --------------------------------------------------------------

  /**
   Handle numbers are never reused in the model and Close takes only open ones, so every handle is
   closed at most once, and `closed` is what has been opened and is no longer open.
   */
  class HandleTable {
    var live: set<nat>
    var next: nat
    ghost var closed: set<nat>

    ghost predicate Valid()
      reads this
    {
      && (forall h :: h in live ==> h < next)
      && (forall h: nat :: h in closed <==> h < next && h !in live)
    }

    constructor ()
      ensures Valid() && live == {} && next == 0
    {
      live, next, closed := {}, 0, {};
    }

    method Open() returns (h: nat)
      requires Valid()
      modifies this
      ensures Valid() && h == old(next) && next == old(next) + 1 && live == old(live) + {h}
    {
      h := next;
      live, next := live + {h}, next + 1;
    }

    /** CloseHandle: only an open handle may be closed. */
    method Close(h: nat)
      requires Valid() && h in live
      modifies this
      ensures Valid() && next == old(next) && live == old(live) - {h}
    {
      live := live - {h};
      closed := closed + {h};
    }
  }

  // ---- The state and its steps as functions -------------------------------------------------------

  datatype Table = Table(mounts: map<string, MountedVolume>, live: set<nat>, next: nat)

  /** Handles opened before the attempt ends. */
  function HandlesOpened(o: Outcome): nat {
    match o
    case OpenFails => 0
    case ReopenRawFails => 1
    case ReopenFails => 2
    case _ => 3
  }

  function HandlesOf(mounts: map<string, MountedVolume>, text: string): set<nat> {
    if text in mounts then {mounts[text].disk, mounts[text].raw} else {}
  }

  /** mount_partition: on success two handles stay open, on failure none; a replaced volume is dropped. */
  function AfterMount(w: Table, p: Partition, letter: char, o: Outcome): Table {
    var text, h := KeyText(p.Key()), w.next;
    if !o.Succeeds? then w.(next := h + HandlesOpened(o))
    else w.(mounts := w.mounts[text := MountedVolume(p, letter, h, h + 1)],
            live := w.live + {h, h + 1} - HandlesOf(w.mounts, text),
            next := h + 3)
  }

  function AfterUnmount(w: Table, k: PartitionKey): Table {
    w.(mounts := w.mounts - {KeyText(k)}, live := w.live - HandlesOf(w.mounts, KeyText(k)))
  }

  // ---- The manager --------------------------------------------------------------------------------

  /** Every volume in the table owns two handles that nobody else owns. */
  ghost predicate OwnsHandles(mounts: map<string, MountedVolume>, live: set<nat>) {
    && (forall t :: t in mounts ==> mounts[t].disk in live && mounts[t].raw in live && mounts[t].disk != mounts[t].raw)
    && (forall t, u :: t in mounts && u in mounts && t != u ==> HandlesOf(mounts, t) !! HandlesOf(mounts, u))
  }

  /** The handles of all volumes together. */
  ghost function AllHandles(mounts: map<string, MountedVolume>): set<nat>
    decreases |mounts|
  {
    if mounts == map[] then {}
    else var t :| t in mounts; HandlesOf(mounts, t) + AllHandles(mounts - {t})
  }

  lemma {:induction false} AllHandlesSpec(mounts: map<string, MountedVolume>, h: nat)
    ensures h in AllHandles(mounts) <==> exists t :: t in mounts && h in HandlesOf(mounts, t)
    decreases |mounts|
  {
    if mounts != map[] {
      var t :| t in mounts && AllHandles(mounts) == HandlesOf(mounts, t) + AllHandles(mounts - {t});
      var rest := mounts - {t};
      AllHandlesSpec(rest, h);
      if u :| u in mounts && h in HandlesOf(mounts, u) {
        assert u != t ==> h in HandlesOf(rest, u);
      }
      if u :| u in rest && h in HandlesOf(rest, u) {
        assert h in HandlesOf(mounts, u);
      }
    }
  }

  lemma AllHandlesSplit(mounts: map<string, MountedVolume>, t: string)
    requires t in mounts
    ensures AllHandles(mounts) == AllHandles(mounts - {t}) + HandlesOf(mounts, t)
  {
    var rest := mounts - {t};
    forall h: nat
      ensures h in AllHandles(mounts) <==> h in AllHandles(rest) + HandlesOf(mounts, t)
    {
      AllHandlesSpec(mounts, h);
      AllHandlesSpec(rest, h);
      if u :| u in mounts && h in HandlesOf(mounts, u) {
        assert u != t ==> h in HandlesOf(rest, u);
      }
      if u :| u in rest && h in HandlesOf(rest, u) {
        assert h in HandlesOf(mounts, u);
      }
    }
  }

  lemma DropOne(mounts: map<string, MountedVolume>, live: set<nat>, t: string)
    requires t in mounts
    ensures live - HandlesOf(mounts, t) - AllHandles(mounts - {t}) == live - AllHandles(mounts)
  {
    AllHandlesSplit(mounts, t);
  }

  lemma OwnsAfterRemove(mounts: map<string, MountedVolume>, live: set<nat>, t: string)
    requires OwnsHandles(mounts, live) && t in mounts
    ensures OwnsHandles(mounts - {t}, live - HandlesOf(mounts, t))
  {
    var rest := mounts - {t};
    forall u | u in rest
      ensures rest[u].disk !in HandlesOf(mounts, t) && rest[u].raw !in HandlesOf(mounts, t)
    {
      assert HandlesOf(mounts, u) !! HandlesOf(mounts, t);
      assert rest[u].disk in HandlesOf(mounts, u) && rest[u].raw in HandlesOf(mounts, u);
    }
    forall u, w | u in rest && w in rest && u != w
      ensures HandlesOf(rest, u) !! HandlesOf(rest, w)
    {
      assert HandlesOf(mounts, u) !! HandlesOf(mounts, w);
    }
  }

  lemma OwnsAfterInsert(mounts: map<string, MountedVolume>, live: set<nat>, t: string, v: MountedVolume)
    requires OwnsHandles(mounts, live) && t !in mounts
    requires v.disk !in live && v.raw !in live && v.disk != v.raw
    ensures OwnsHandles(mounts[t := v], live + {v.disk, v.raw})
  {
    var more := mounts[t := v];
    forall u | u in mounts
      ensures HandlesOf(more, u) == HandlesOf(mounts, u) && HandlesOf(more, u) <= live
    {
    }
    forall u, w | u in more && w in more && u != w
      ensures HandlesOf(more, u) !! HandlesOf(more, w)
    {
      if u in mounts && w in mounts {
        assert HandlesOf(mounts, u) !! HandlesOf(mounts, w);
      }
    }
  }

  class MountManager {
    const handles: HandleTable
    var mounts: map<string, MountedVolume>

    ghost predicate Valid()
      reads this, handles
    {
      handles.Valid() && OwnsHandles(mounts, handles.live)
    }

    ghost function View(): Table
      reads this, handles
    {
      Table(mounts, handles.live, handles.next)
    }

    constructor ()
      ensures Valid() && fresh(handles) && View() == Table(map[], {}, 0)
    {
      handles := new HandleTable();
      mounts := map[];
    }

    /** Dropping a volume's host drops its driver, and with it both readers. */
    method RemoveVolume(t: string)
      requires Valid() && t in mounts
      modifies this, handles
      ensures Valid() && mounts == old(mounts) - {t}
      ensures handles.live == old(handles.live) - HandlesOf(old(mounts), t) && handles.next == old(handles.next)
    {
      var volume := mounts[t];
      OwnsAfterRemove(mounts, handles.live, t);
      handles.Close(volume.disk);
      handles.Close(volume.raw);
      mounts := mounts - {t};
    }

    /** DiskReader::open_with_offset, then ApfsDriver::new: a reopen that fails drops what was opened. */
    method OpenDriver(o: Outcome) returns (ok: bool, disk: nat, raw: nat)
      requires Valid()
      modifies handles
      ensures Valid() && ok == (o in {HostFails, MountFails, StartFails, Succeeds})
      ensures disk == old(handles.next) && raw == disk + 1
      ensures handles.live == old(handles.live) + if ok then {disk, raw} else {}
      ensures handles.next == old(handles.next) + HandlesOpened(o)
    {
      disk, raw := handles.next, handles.next + 1;
      if o.OpenFails? {
        return false, disk, raw;
      }
      var h0 := handles.Open();
      if o.ReopenRawFails? {
        handles.Close(h0);
        return false, disk, raw;
      }
      var h1 := handles.Open();
      if o.ReopenFails? {
        handles.Close(h1);
        handles.Close(h0);
        return false, disk, raw;
      }
      var meta := handles.Open();
      if o.VolumeOpenFails? {
        handles.Close(h0);
        handles.Close(meta);
        handles.Close(h1);
        return false, disk, raw;
      }
      handles.Close(meta);
      ok := true;
    }

    method MountPartition(p: Partition, letter: char, o: Outcome) returns (ok: bool)
      requires Valid()
      modifies this, handles
      ensures Valid() && ok == o.Succeeds?
      ensures View() == AfterMount(old(View()), p, letter, o)
    {
      var key := KeyText(p.Key());
      ghost var before := handles.live;
      var driver, disk, raw := OpenDriver(o);
      if !driver {
        return false;
      }
      if !o.Succeeds? {
        handles.Close(disk);
        handles.Close(raw);
        assert handles.live == before;
        return false;
      }
      assert handles.live - {disk, raw} == before;
      InsertVolume(key, MountedVolume(p, letter, disk, raw));
      ok := true;
    }

    /** HashMap::insert drops a volume that was there under the same key. */
    method InsertVolume(key: string, v: MountedVolume)
      requires handles.Valid() && OwnsHandles(mounts, handles.live - {v.disk, v.raw})
      requires v.disk in handles.live && v.raw in handles.live && v.disk != v.raw
      modifies this, handles
      ensures Valid() && mounts == old(mounts)[key := v]
      ensures handles.live == old(handles.live) - HandlesOf(old(mounts), key) && handles.next == old(handles.next)
    {
      ghost var others := handles.live - {v.disk, v.raw};
      if key in mounts {
        ghost var gone := HandlesOf(mounts, key);
        OwnsAfterRemove(mounts, others, key);
        RemoveVolume(key);
        others := others - gone;
      }
      OwnsAfterInsert(mounts, others, key, v);
      assert others + {v.disk, v.raw} == handles.live;
      mounts := mounts[key := v];
    }

    method UnmountPartition(k: PartitionKey)
      requires Valid()
      modifies this, handles
      ensures Valid()
      ensures View() == AfterUnmount(old(View()), k)
    {
      var key := KeyText(k);
      if key in mounts {
        RemoveVolume(key);
      }
    }

    method IsMounted(k: PartitionKey) returns (b: bool)
      ensures b <==> KeyText(k) in mounts
    {
      b := KeyText(k) in mounts;
    }

    /** Dropping the manager drops every volume. */
    method DropAll()
      requires Valid()
      modifies this, handles
      ensures Valid() && mounts == map[]
      ensures handles.live == old(handles.live) - AllHandles(old(mounts))
    {
      while mounts != map[]
        invariant Valid()
        invariant handles.live - AllHandles(mounts) == old(handles.live) - AllHandles(old(mounts))
        decreases |mounts|
      {
        var t :| t in mounts;
        DropOne(mounts, handles.live, t);
        RemoveVolume(t);
      }
    }
  }
}
