/**
 src/main.rs: run_daemon_internal. Device events queue up in a channel and each one costs a scan;
 shutdown is looked at only when no event has been waiting for 100 ms.
 */
module DaemonLoop {
  import opened Basics
  import opened Keys
  import opened Reconciler
  import opened Convergence
  import opened Scans
  import opened Attempts
  import opened OneScan

  /**
   What happens before one turn of the loop: device events that arrive, each given as what its scan
   will find, and whether shutdown is signalled.
   */
  datatype Turn = Turn(arrivals: seq<Scan>, signal: bool)

  /** The loop's own state; `scans` counts the scans made. */
  datatype Loop = Loop(world: World, queue: seq<Scan>, shutdown: bool, scans: nat, exited: bool)

  predicate ValidTurns(turns: seq<Turn>) {
    forall i :: 0 <= i < |turns| ==> ValidScans(turns[i].arrivals)
  }

  function AfterScan(w: World, s: Scan): World
    requires |s.partitions| == |s.env|
  {
    Reconcile(w, s.partitions, s.env)
  }

  /** One select!: a waiting event is taken first, and only an idle turn looks at the shutdown signal. */
  function AfterTurn(l: Loop, t: Turn): Loop
    requires ValidScans(l.queue) && ValidScans(t.arrivals)
  {
    var queue, shutdown := l.queue + t.arrivals, l.shutdown || t.signal;
    if l.exited then l
    else if queue != [] then Loop(AfterScan(l.world, queue[0]), queue[1..], shutdown, l.scans + 1, false)
    else Loop(l.world, [], shutdown, l.scans, shutdown)
  }

  function AfterTurns(l: Loop, turns: seq<Turn>): (r: Loop)
    requires ValidScans(l.queue) && ValidTurns(turns)
    ensures ValidScans(r.queue)
    decreases |turns|
  {
    if turns == [] then l else AfterTurns(AfterTurn(l, turns[0]), turns[1..])
  }

  /** The watcher exists; the first scan has been made. */
  function StartLoop(first: Scan): Loop
    requires |first.partitions| == |first.env|
  {
    Loop(AfterScan(InitialWorld(), first), [], false, 1, false)
  }

  /**
   The daemon over any schedule of turns. Without a watcher it fails before any scan. When it exits, the
   manager is dropped and no disk handle is left open.
   */
  method RunDaemonInternal(watcherOk: bool, first: Scan, turns: seq<Turn>)
    returns (ok: bool, exited: bool, scans: nat, live: set<nat>)
    requires |first.partitions| == |first.env| && ValidTurns(turns)
    ensures ok == watcherOk
    ensures !watcherOk ==> scans == 0 && live == {}
    ensures watcherOk ==>
              var l := AfterTurns(StartLoop(first), turns);
              exited == l.exited && scans == l.scans && live == if exited then {} else l.world.table.live
  {
    var daemon := new Daemon();
    scans, exited, live := 0, false, {};
    if !watcherOk {
      return false, exited, scans, live;
    }
    ok := true;
    daemon.ScanAndUpdate(Ok(first.partitions), first.env);
    scans := 1;
    var queue: seq<Scan>, shutdown := [], false;
    ghost var end := AfterTurns(StartLoop(first), turns);
    ReconcileKeepsInv(InitialWorld(), first.partitions, first.env);
    var i := 0;
    while i < |turns| && !exited
      invariant 0 <= i <= |turns|
      invariant daemon.Valid() && fresh(daemon) && fresh(daemon.manager) && fresh(daemon.manager.handles)
      invariant ValidScans(queue) && Inv(daemon.View())
      invariant AfterTurns(Loop(daemon.View(), queue, shutdown, scans, exited), turns[i..]) == end
    {
      assert turns[i..][1..] == turns[i + 1..];
      queue, shutdown := queue + turns[i].arrivals, shutdown || turns[i].signal;
      if queue != [] {
        ReconcileKeepsInv(daemon.View(), queue[0].partitions, queue[0].env);
        daemon.ScanAndUpdate(Ok(queue[0].partitions), queue[0].env);
        scans := scans + 1;
        queue := queue[1..];
      } else if shutdown {
        exited := true;
      }
      i := i + 1;
    }
    ExitedStays(Loop(daemon.View(), queue, shutdown, scans, exited), turns[i..]);
    if exited {
      daemon.manager.DropAll();
      live := daemon.manager.handles.live;
    } else {
      live := daemon.manager.handles.live;
    }
  }

  lemma {:induction false} ExitedStays(l: Loop, turns: seq<Turn>)
    requires ValidScans(l.queue) && ValidTurns(turns)
    ensures l.exited || turns == [] ==> AfterTurns(l, turns) == l
    decreases |turns|
  {
    if turns != [] && l.exited {
      ExitedStays(l, turns[1..]);
    }
  }

  // ---- The start ----------------------------------------------------------------------------------

  /** Before the first event: what is mounted is what was scanned and could be mounted. */
  lemma StartKnowsIff(first: Scan, k: PartitionKey)
    requires |first.partitions| == |first.env|
    ensures AfterTurns(StartLoop(first), []).scans == 1
    ensures k in AfterTurns(StartLoop(first), []).world.known
       <==> CanMount(InitialWorld(), first.partitions, first.env, k)
  {
    ScanKnowsIff(InitialWorld(), first.partitions, first.env, k);
    if i: nat :| CanMountAt(InitialWorld(), first.partitions, first.env, i) && first.partitions[i].Key() == k {
      assert first.partitions[i].Key() in Current(first.partitions);
    }
  }

  /** With successful mounts and enough letters, all partitions present at the start are mounted by then. */
  lemma StartMountsAll(first: Scan, foreign: set<char>)
    requires |first.partitions| == |first.env| && Calm(first.env, foreign)
    requires |Current(first.partitions)| <= |Free(map[], foreign)|
    ensures AfterTurns(StartLoop(first), []).world.known == Current(first.partitions)
  {
    assert Inv(InitialWorld());
    assert Current(first.partitions) - {} == Current(first.partitions);
    AllMountedIffEnoughLetters(InitialWorld(), first.partitions, first.env, foreign);
  }

  // ---- Shutdown -----------------------------------------------------------------------------------

  /** The events that arrive over these turns, in order. */
  function Arrived(turns: seq<Turn>): seq<Scan> {
    if turns == [] then [] else turns[0].arrivals + Arrived(turns[1..])
  }

  lemma {:induction false} ArrivedAreValid(turns: seq<Turn>)
    requires ValidTurns(turns)
    ensures ValidScans(Arrived(turns))
    decreases |turns|
  {
    if turns != [] {
      ArrivedAreValid(turns[1..]);
    }
  }

  lemma ArrivedCons(turns: seq<Turn>, k: nat)
    requires k < |turns|
    ensures Arrived(turns[..k + 1]) == turns[0].arrivals + Arrived(turns[1..][..k])
  {
    assert turns[..k + 1][1..] == turns[1..][..k];
  }

  /**
   Up to and with turn k no more events have come than turns have passed, so turn k finds none waiting.
   A caller can tell from the arrivals alone.
   */
  predicate DrainedAt(l: Loop, turns: seq<Turn>, k: nat) {
    k < |turns| && |l.queue| + |Arrived(turns[..k + 1])| <= k
  }

  /** Shutdown is signalled, before these turns or with the first of them. */
  predicate Signalled(l: Loop, turns: seq<Turn>) {
    l.shutdown || (turns != [] && turns[0].signal)
  }

  /** The first turn takes an event when one waits, and the rest is drained one turn earlier. */
  lemma DrainedCons(l: Loop, turns: seq<Turn>, k: nat)
    requires ValidScans(l.queue) && ValidTurns(turns) && !l.exited
    requires turns != [] && l.queue + turns[0].arrivals != []
    ensures DrainedAt(l, turns, k) <==> k > 0 && DrainedAt(AfterTurn(l, turns[0]), turns[1..], k - 1)
  {
    if k < |turns| {
      ArrivedCons(turns, k);
    }
  }

  lemma DrainedLater(l: Loop, turns: seq<Turn>)
    requires ValidScans(l.queue) && ValidTurns(turns) && !l.exited
    requires turns != [] && l.queue + turns[0].arrivals != []
    ensures (exists k: nat :: DrainedAt(l, turns, k))
       <==> exists k: nat :: DrainedAt(AfterTurn(l, turns[0]), turns[1..], k)
  {
    var next := AfterTurn(l, turns[0]);
    if k: nat :| DrainedAt(l, turns, k) {
      DrainedCons(l, turns, k);
      assert DrainedAt(next, turns[1..], k - 1);
    }
    if k: nat :| DrainedAt(next, turns[1..], k) {
      DrainedCons(l, turns, k + 1);
      assert DrainedAt(l, turns, k + 1);
    }
  }

  lemma FirstTurnDrained(l: Loop, turns: seq<Turn>)
    requires turns != []
    ensures DrainedAt(l, turns, 0) <==> l.queue + turns[0].arrivals == []
  {
    ArrivedCons(turns, 0);
    assert Arrived(turns[1..][..0]) == [];
  }

  /** Once shutdown is signalled the loop exits if and only if some turn finds the queue drained. */
  lemma {:induction false} ExitsIffDrained(l: Loop, turns: seq<Turn>)
    requires ValidScans(l.queue) && ValidTurns(turns) && !l.exited && Signalled(l, turns)
    ensures AfterTurns(l, turns).exited <==> exists k: nat :: DrainedAt(l, turns, k)
    decreases |turns|
  {
    if turns != [] {
      var next := AfterTurn(l, turns[0]);
      FirstTurnDrained(l, turns);
      if l.queue + turns[0].arrivals == [] {
        ExitedStays(next, turns[1..]);
      } else {
        ExitsIffDrained(next, turns[1..]);
        DrainedLater(l, turns);
      }
    }
  }

  lemma FirstEventThenRest(queue: seq<Scan>, arrivals: seq<Scan>, later: seq<Scan>)
    requires queue + arrivals != []
    ensures queue + (arrivals + later) == [(queue + arrivals)[0]] + ((queue + arrivals)[1..] + later)
    ensures (queue + (arrivals + later))[1..] == (queue + arrivals)[1..] + later
  {
  }

  /** The first turn scans the event in front; all other events stay in order. */
  lemma FirstScan(l: Loop, turns: seq<Turn>, k: nat)
    requires ValidScans(l.queue) && ValidTurns(turns) && !l.exited
    requires 0 < k <= |turns| && l.queue + turns[0].arrivals != []
    ensures var next := AfterTurn(l, turns[0]);
            var events, rest := l.queue + Arrived(turns[..k]), next.queue + Arrived(turns[1..][..k - 1]);
            && ValidScans(events) && ValidScans(rest) && events == [events[0]] + rest
            && AfterScans(l.world, events) == AfterScans(next.world, rest)
  {
    ArrivedAreValid(turns[..k]);
    ArrivedAreValid(turns[1..][..k - 1]);
    ArrivedCons(turns, k - 1);
    FirstEventThenRest(l.queue, turns[0].arrivals, Arrived(turns[1..][..k - 1]));
    var events := l.queue + Arrived(turns[..k]);
    assert events[0] == (l.queue + turns[0].arrivals)[0];
  }

  predicate FirstDrainedAt(l: Loop, turns: seq<Turn>, k: nat) {
    DrainedAt(l, turns, k) && forall m: nat :: m < k ==> !DrainedAt(l, turns, m)
  }

  /** Turn 0 is the first drained one if it finds no event; otherwise the rest has its first one turn earlier. */
  lemma FirstDrainedCons(l: Loop, turns: seq<Turn>, k: nat)
    requires ValidScans(l.queue) && ValidTurns(turns) && !l.exited && FirstDrainedAt(l, turns, k)
    ensures k == 0 <==> l.queue + turns[0].arrivals == []
    ensures k > 0 ==> FirstDrainedAt(AfterTurn(l, turns[0]), turns[1..], k - 1)
  {
    FirstTurnDrained(l, turns);
    if k > 0 {
      assert !DrainedAt(l, turns, 0);
      DrainedCons(l, turns, k);
      forall m: nat | m < k - 1
        ensures !DrainedAt(AfterTurn(l, turns[0]), turns[1..], m)
      {
        DrainedCons(l, turns, m + 1);
      }
    }
  }

  /**
   It exits on the first such turn, whatever arrives later: with one scan for each event that had
   arrived by then, in order of arrival.
   */
  lemma {:induction false} ExitsAfterOneScanPerEvent(l: Loop, turns: seq<Turn>, k: nat)
    requires ValidScans(l.queue) && ValidTurns(turns) && !l.exited && Signalled(l, turns)
    requires FirstDrainedAt(l, turns, k)
    ensures var events := l.queue + Arrived(turns[..k]);
            && ValidScans(events) && |events| == k
            && AfterTurns(l, turns) == Loop(AfterScans(l.world, events), [], true, l.scans + k, true)
    decreases |turns|
  {
    FirstDrainedCons(l, turns, k);
    var next := AfterTurn(l, turns[0]);
    if k == 0 {
      assert l.queue + Arrived(turns[..0]) == [];
      ExitedStays(next, turns[1..]);
    } else {
      ExitsAfterOneScanPerEvent(next, turns[1..], k - 1);
      FirstScan(l, turns, k);
    }
  }

  lemma ScanFront(w: World, first: Scan, rest: seq<Scan>, n: nat)
    requires |first.partitions| == |first.env| && ValidScans(rest) && n <= |rest|
    ensures var events := [first] + rest;
            && ValidScans(events) && events[n + 1..] == rest[n..]
            && AfterScans(w, events[..n + 1]) == AfterScans(AfterScan(w, first), rest[..n])
  {
    assert ([first] + rest)[..n + 1] == [first] + rest[..n];
    assert ([first] + rest[..n])[1..] == rest[..n];
  }

  /** While no turn finds it drained, every turn makes one scan, of the event that has waited longest. */
  lemma {:induction false} BusyTurnsScan(l: Loop, turns: seq<Turn>)
    requires ValidScans(l.queue) && ValidTurns(turns) && !l.exited
    requires forall k: nat :: !DrainedAt(l, turns, k)
    ensures var events := l.queue + Arrived(turns);
            && |turns| <= |events| && ValidScans(events)
            && AfterTurns(l, turns).world == AfterScans(l.world, events[..|turns|])
            && AfterTurns(l, turns).queue == events[|turns|..]
            && AfterTurns(l, turns).scans == l.scans + |turns| && !AfterTurns(l, turns).exited
    decreases |turns|
  {
    ArrivedAreValid(turns);
    if turns != [] {
      FirstTurnDrained(l, turns);
      assert !DrainedAt(l, turns, 0);
      var next := AfterTurn(l, turns[0]);
      forall k: nat
        ensures !DrainedAt(next, turns[1..], k)
      {
        DrainedCons(l, turns, k + 1);
      }
      BusyTurnsScan(next, turns[1..]);
      FirstEventThenRest(l.queue, turns[0].arrivals, Arrived(turns[1..]));
      ScanFront(l.world, (l.queue + turns[0].arrivals)[0], next.queue + Arrived(turns[1..]), |turns| - 1);
    }
  }

  predicate Quiet(turns: seq<Turn>) {
    forall i :: 0 <= i < |turns| ==> turns[i].arrivals == []
  }

  lemma {:induction false} QuietBringsNothing(turns: seq<Turn>)
    requires Quiet(turns)
    ensures Arrived(turns) == []
    decreases |turns|
  {
    if turns != [] {
      QuietBringsNothing(turns[1..]);
    }
  }

  /**
   When no more events come after the signal, the loop makes exactly one scan per event still queued,
   and exits on the turn after the last one, not before.
   */
  lemma DrainsThenExits(l: Loop, turns: seq<Turn>)
    requires ValidScans(l.queue) && !l.exited && l.shutdown && Quiet(turns)
    ensures ValidTurns(turns)
    ensures AfterTurns(l, turns).exited <==> |turns| > |l.queue|
    ensures |turns| >= |l.queue| ==>
              && AfterTurns(l, turns).scans == l.scans + |l.queue|
              && AfterTurns(l, turns).world == AfterScans(l.world, l.queue)
  {
    assert ValidTurns(turns);
    forall k: nat
      ensures DrainedAt(l, turns, k) <==> |l.queue| <= k < |turns|
    {
      if k < |turns| {
        QuietBringsNothing(turns[..k + 1]);
      }
    }
    ExitsIffDrained(l, turns);
    if |turns| > |l.queue| {
      assert DrainedAt(l, turns, |l.queue|);
      QuietBringsNothing(turns[..|l.queue|]);
      ExitsAfterOneScanPerEvent(l, turns, |l.queue|);
      assert l.queue + [] == l.queue;
    } else {
      QuietBringsNothing(turns);
      BusyTurnsScan(l, turns);
      assert |turns| == |l.queue| ==> (l.queue + [])[..|turns|] == l.queue;
    }
  }

  lemma {:induction false} ArrivalsAddUp(turns: seq<Turn>)
    requires forall i :: 0 <= i < |turns| ==> turns[i].arrivals != []
    ensures |Arrived(turns)| >= |turns|
    decreases |turns|
  {
    if turns != [] {
      ArrivalsAddUp(turns[1..]);
    }
  }

  /** The other side: while every turn finds a waiting event, a signalled shutdown is never looked at. */
  lemma BusyLoopNeverExits(l: Loop, turns: seq<Turn>)
    requires ValidScans(l.queue) && ValidTurns(turns) && !l.exited
    requires forall i :: 0 <= i < |turns| ==> turns[i].arrivals != []
    ensures !AfterTurns(l, turns).exited && AfterTurns(l, turns).scans == l.scans + |turns|
  {
    forall k: nat
      ensures !DrainedAt(l, turns, k)
    {
      if k < |turns| {
        ArrivalsAddUp(turns[..k + 1]);
      }
    }
    BusyTurnsScan(l, turns);
  }

  // ---- The whole run --------------------------------------------------------------------------------

  lemma {:induction false} TurnsAppend(l: Loop, a: seq<Turn>, b: seq<Turn>)
    requires ValidScans(l.queue) && ValidTurns(a) && ValidTurns(b)
    ensures ValidTurns(a + b) && AfterTurns(l, a + b) == AfterTurns(AfterTurns(l, a), b)
    decreases |a|
  {
    if a == [] {
      assert a + b == b;
    } else {
      assert (a + b)[0] == a[0] && (a + b)[1..] == a[1..] + b;
      var next := AfterTurn(l, a[0]);
      TurnsAppend(next, a[1..], b);
      assert AfterTurns(l, a + b) == AfterTurns(next, a[1..] + b);
      assert AfterTurns(l, a) == AfterTurns(next, a[1..]);
    }
  }

  /** Without a signal the loop goes on. */
  lemma {:induction false} NoSignalNoExit(l: Loop, turns: seq<Turn>)
    requires ValidScans(l.queue) && ValidTurns(turns) && !l.exited && !l.shutdown
    requires forall i :: 0 <= i < |turns| ==> !turns[i].signal
    ensures !AfterTurns(l, turns).exited && !AfterTurns(l, turns).shutdown
    decreases |turns|
  {
    if turns != [] {
      NoSignalNoExit(AfterTurn(l, turns[0]), turns[1..]);
    }
  }

  /**
   Any schedule whose first signal comes with turn s: the loop has exited if and only if some turn from
   then on finds the queue drained.
   */
  lemma ExitsIffDrainedAfterSignal(l: Loop, turns: seq<Turn>, s: nat)
    requires ValidScans(l.queue) && ValidTurns(turns) && !l.exited && !l.shutdown
    requires s < |turns| && turns[s].signal && forall i :: 0 <= i < s ==> !turns[i].signal
    ensures AfterTurns(l, turns).exited
       <==> exists k: nat :: DrainedAt(AfterTurns(l, turns[..s]), turns[s..], k)
  {
    assert turns == turns[..s] + turns[s..];
    TurnsAppend(l, turns[..s], turns[s..]);
    NoSignalNoExit(l, turns[..s]);
    ExitsIffDrained(AfterTurns(l, turns[..s]), turns[s..]);
  }
}
