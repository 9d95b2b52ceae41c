/**
 No file read disturbs another: what a thread reads among others it reads alone, whatever its extent
 map, and on a behaving device it reads its whole request (src/driver.rs, src/disk.rs).
 */
module Isolation {
  import opened Basics
  import opened Disk
  import opened Extents
  import opened FileRead
  import opened Interleaving

  /** A step of thread t's file read. */
  predicate IsOf(a: Action, t: Tid) {
    !IsMeta(a) && a.t == t
  }

  function Only(actions: seq<Action>, t: Tid): seq<Action> {
    if actions == [] then []
    else (if IsOf(actions[0], t) then [actions[0]] else []) + Only(actions[1..], t)
  }

  /** The same start without the other file reads. */
  function Alone(s: State, t: Tid): State
    requires t in s.threads
  {
    s.(threads := map[t := s.threads[t]])
  }

  /** In q thread t is alone and sees what it sees in s: its progress, its lock, and a pointer it has placed. */
  predicate SameFor(c: Config, s: State, q: State, t: Tid)
    requires WellFormed(c, s) && WellFormed(c, q)
  {
    && t in s.threads && q.threads == map[t := s.threads[t]]
    && (s.rawOwner == Some(t) <==> q.rawOwner == Some(t)) && (q.rawOwner == None || q.rawOwner == Some(t))
    && (s.threads[t].phase == Positioned ==> s.pos[c.raw] == q.pos[c.raw])
  }

  lemma OthersAreUnseen(c: Config, s: State, q: State, a: Action, t: Tid)
    requires Safe(c, s) && Safe(c, q) && SameFor(c, s, q, t) && Enabled(c, s, a, true) && !IsOf(a, t)
    ensures WellFormed(c, Next(c, s, a, true)) && SameFor(c, Next(c, s, a, true), q, t)
  {
    StepIsSafe(c, s, a);
  }

  lemma OwnStepsAgree(c: Config, s: State, q: State, a: Action, t: Tid)
    requires Safe(c, s) && Safe(c, q) && SameFor(c, s, q, t) && Enabled(c, s, a, true) && IsOf(a, t)
    ensures Enabled(c, q, a, true) && WellFormed(c, Next(c, s, a, true)) && WellFormed(c, Next(c, q, a, true))
    ensures SameFor(c, Next(c, s, a, true), Next(c, q, a, true), t)
  {
    StepIsSafe(c, s, a);
    StepIsSafe(c, q, a);
  }

  lemma {:induction false} RunIsIsolated(c: Config, s: State, q: State, actions: seq<Action>, s': State, t: Tid)
    returns (q': State)
    requires Safe(c, s) && Safe(c, q) && SameFor(c, s, q, t) && Run(c, s, actions, s', true)
    ensures Run(c, q, Only(actions, t), q', true)
    ensures t in s'.threads && q'.threads == map[t := s'.threads[t]]
    decreases |actions|
  {
    if actions == [] {
      q' := q;
    } else {
      var a := actions[0];
      StepIsSafe(c, s, a);
      if IsOf(a, t) {
        OwnStepsAgree(c, s, q, a, t);
        StepIsSafe(c, q, a);
        q' := RunIsIsolated(c, Next(c, s, a, true), Next(c, q, a, true), actions[1..], s', t);
        RunCons(c, q, a, Only(actions[1..], t), q', true);
      } else {
        OthersAreUnseen(c, s, q, a, t);
        q' := RunIsIsolated(c, Next(c, s, a, true), q, actions[1..], s', t);
        assert Only(actions, t) == Only(actions[1..], t);
      }
    }
  }

  /**
   Keep only the steps of one file read, from any run with any extent maps: they are a run of that read
   alone, and it ends with the same bytes in the same phase.
   */
  lemma EachReadRunsAsIfAlone(c: Config, s: State, actions: seq<Action>, s': State, t: Tid) returns (q': State)
    requires Initial(c, s) && t in s.threads && Run(c, s, actions, s', true)
    ensures Initial(c, Alone(s, t)) && Run(c, Alone(s, t), Only(actions, t), q', true)
    ensures t in s'.threads && q'.threads == map[t := s'.threads[t]]
  {
    InitialIsSafe(c, s);
    InitialIsSafe(c, Alone(s, t));
    q' := RunIsIsolated(c, s, Alone(s, t), actions, s', t);
  }

  // ---- Complete reads -----------------------------------------------------------------------------

  /**
   The device serves thread t in this step: a fetch reaches past the leading bytes of its sector window
   or to the end, and no call fails, so the thread returns early only where there is nothing to fetch.
   */
  predicate Serves(c: Config, s: State, a: Action, t: Tid)
    requires WellFormed(c, s) && Enabled(c, s, a, true)
  {
    match a
    case Fetch(u, n) => u == t ==>
      n > Lead(NextChunk(s.threads[u]).value.0) || s.pos[c.raw] + n >= |c.bytes|
    case Unlock(u) => u == t ==> NextChunk(s.threads[u]) == None
    case _ => true
  }

  predicate ServesRun(c: Config, s: State, actions: seq<Action>, t: Tid)
    decreases |actions|
  {
    actions == [] ||
    (WellFormed(c, s) && Enabled(c, s, actions[0], true) && Serves(c, s, actions[0], t) &&
     ServesRun(c, Next(c, s, actions[0], true), actions[1..], t))
  }

  /** The lookups locate each requested position below the end of the device. */
  predicate Located(ext: seq<Extent>, base: u64, size: nat, l: u64) {
    LogicalToPhysical(ext, l).Some? && Add64(base, LogicalToPhysical(ext, l).value) < size
  }

  ghost predicate AllLocated(j: Job, size: nat)
    requires ValidJob(j)
  {
    forall l: u64 :: j.offset <= l < j.offset + j.toRead ==> Located(j.ext, j.base, size, l)
  }

  /** If it has returned, it has returned everything. */
  predicate DoneIsComplete(th: Thread) {
    th.phase == Done ==> |th.got| == th.job.toRead
  }

  /** A served fetch of a located position brings something. */
  lemma FetchBringsBytes(c: Config, th: Thread, pos: nat, n: nat)
    requires ValidJob(th.job) && |th.got| <= th.job.toRead && NextChunk(th).Some?
    requires Located(th.job.ext, th.job.base, |c.bytes|, th.job.offset + |th.got|)
    requires pos == WindowStart(NextChunk(th).value.0) && ReadsAt(c, pos, n)
    requires n > Lead(NextChunk(th).value.0) || pos + n >= |c.bytes|
    ensures Requested(c, pos, NextChunk(th).value, n) != []
  {
    LookupsSelectTogether(th.job.ext, th.job.offset + |th.got|);
  }

  lemma StepCompletes(c: Config, s: State, a: Action, t: Tid)
    requires Safe(c, s) && t in s.threads && Enabled(c, s, a, true) && Serves(c, s, a, t)
    requires AllLocated(s.threads[t].job, |c.bytes|) && DoneIsComplete(s.threads[t])
    ensures t in Next(c, s, a, true).threads && DoneIsComplete(Next(c, s, a, true).threads[t])
    ensures Next(c, s, a, true).threads[t].job == s.threads[t].job
  {
    var th := s.threads[t];
    assert |th.got| < th.job.toRead ==> Located(th.job.ext, th.job.base, |c.bytes|, th.job.offset + |th.got|);
    if a.Fetch? && a.t == t {
      FetchBringsBytes(c, th, s.pos[c.raw], a.n);
    }
  }

  lemma {:induction false} RunCompletes(c: Config, s: State, actions: seq<Action>, s': State, t: Tid)
    requires Safe(c, s) && t in s.threads && Run(c, s, actions, s', true) && ServesRun(c, s, actions, t)
    requires AllLocated(s.threads[t].job, |c.bytes|) && DoneIsComplete(s.threads[t])
    ensures t in s'.threads && s'.threads[t].job == s.threads[t].job && DoneIsComplete(s'.threads[t])
    decreases |actions|
  {
    if actions != [] {
      StepIsSafe(c, s, actions[0]);
      StepCompletes(c, s, actions[0], t);
      RunCompletes(c, Next(c, s, actions[0], true), actions[1..], s', t);
    }
  }

  /** A served read whose positions the lookups all locate on the device ends with its whole request. */
  lemma LocatedReadsComplete(c: Config, s: State, actions: seq<Action>, s': State, t: Tid)
    requires Initial(c, s) && t in s.threads && Run(c, s, actions, s', true) && ServesRun(c, s, actions, t)
    requires AllLocated(s.threads[t].job, |c.bytes|)
    ensures t in s'.threads && s'.threads[t].job == s.threads[t].job
    ensures s'.threads[t].phase == Done ==> |s'.threads[t].got| == s.threads[t].job.toRead
  {
    InitialIsSafe(c, s);
    RunCompletes(c, s, actions, s', t);
  }

  lemma {:induction false} JobsStay(c: Config, s: State, actions: seq<Action>, s': State, locked: bool, t: Tid)
    requires t in s.threads && Run(c, s, actions, s', locked)
    ensures t in s'.threads && s'.threads[t].job == s.threads[t].job
    decreases |actions|
  {
    if actions != [] {
      JobsStay(c, Next(c, s, actions[0], locked), actions[1..], s', locked, t);
    }
  }

  /**
   Through a sound map, whatever the other threads do: a served read that has returned has its whole
   request if and only if every position of the request is mapped, and what it has is the file's bytes.
   */
  lemma ServedReadIsCompleteIffMapped(c: Config, s: State, actions: seq<Action>, s': State, t: Tid)
    requires Initial(c, s) && t in s.threads && Run(c, s, actions, s', true) && ServesRun(c, s, actions, t)
    requires Sound(s.threads[t].job.ext, s.threads[t].job.base)
    requires t in s'.threads && s'.threads[t].phase == Done
    ensures var j := s.threads[t].job;
            && (|s'.threads[t].got| == j.toRead
                <==> AllMapped(j.ext, j.base, |c.bytes|, j.offset, j.offset + j.toRead))
            && FileHolds(j.ext, j.base, c.bytes, j.offset, s'.threads[t].got)
  {
    var j := s.threads[t].job;
    EveryInterleavingIsSafe(c, s, actions, s');
    JobsStay(c, s, actions, s', true, t);
    if AllMapped(j.ext, j.base, |c.bytes|, j.offset, j.offset + j.toRead) {
      forall l: u64 | j.offset <= l < j.offset + j.toRead
        ensures Located(j.ext, j.base, |c.bytes|, l)
      {
        MappedIffLocated(j.ext, j.base, |c.bytes|, l);
      }
      LocatedReadsComplete(c, s, actions, s', t);
    }
    HeldIsMapped(j.ext, j.base, c.bytes, j.offset, s'.threads[t].got);
  }
}
