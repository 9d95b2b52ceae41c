/**
 File reads and metadata operations of many threads, interleaved system call by system call. File
 reads share the raw handle under one mutex; metadata operations use a second handle under another
 (src/driver.rs, src/disk.rs).
 */
module Interleaving {
  import opened Basics
  import opened Device
  import opened Disk
  import opened Extents
  import opened FileRead

  type Tid = nat

  /** The request of one ApfsDriver::read, and how far it has come. */
  datatype Job = Job(ext: seq<Extent>, base: u64, offset: u64, toRead: nat)
  datatype Phase = Waiting | Holding | Positioned | Done
  datatype Thread = Thread(job: Job, got: seq<byte>, phase: Phase)

  datatype Config = Config(bytes: Image, raw: nat, meta: nat)

  datatype State = State(
    pos: map<nat, int>,          // file pointers by handle
    rawOwner: Option<Tid>,       // holder of the raw_disk mutex
    metaOwner: Option<Tid>,      // holder of the volume mutex
    threads: map<Tid, Thread>,
    metaGot: seq<seq<byte>>)     // what the metadata reads returned, in order

  datatype Action =
    | Lock(t: Tid)
    | Point(t: Tid)           // SetFilePointerEx for the next chunk
    | Fetch(t: Tid, n: nat)      // ReadFile, returning n bytes
    | Unlock(t: Tid)             // the read returns: complete, short, or after a failed call
    | MetaLock(t: Tid)
    | MetaPoint(t: Tid, target: nat)
    | MetaFetch(t: Tid, n: nat)
    | MetaUnlock(t: Tid)

  predicate ValidConfig(c: Config) {
    c.raw != c.meta
  }

  predicate ValidJob(j: Job) {
    j.offset + j.toRead < TWO64
  }

  /** The device position and length of the chunk a thread reads next, if its position is mapped. */
  function NextChunk(th: Thread): Option<(u64, nat)>
    requires ValidJob(th.job) && |th.got| <= th.job.toRead
  {
    var l: u64 := th.job.offset + |th.got|;
    var p := LogicalToPhysical(th.job.ext, l);
    if |th.got| == th.job.toRead || p == None then None
    else Some((Add64(th.job.base, p.value), Min(th.job.toRead - |th.got|, ExtentRemaining(th.job.ext, l))))
  }

  predicate WellFormed(c: Config, s: State) {
    && ValidConfig(c) && c.raw in s.pos && c.meta in s.pos
    && s.pos[c.raw] >= 0 && s.pos[c.meta] >= 0
    && forall t :: t in s.threads ==> ValidJob(s.threads[t].job) && |s.threads[t].got| <= s.threads[t].job.toRead
  }

  /** Every thread waits with its own request; handles may stand anywhere. */
  predicate Initial(c: Config, s: State) {
    && WellFormed(c, s) && s.rawOwner == None && s.metaOwner == None && s.metaGot == []
    && forall t :: t in s.threads ==> s.threads[t].phase == Waiting && s.threads[t].got == []
  }

  predicate ReadsAt(c: Config, pos: int, n: nat) {
    n == 0 || (0 <= pos && pos + n <= |c.bytes|)
  }

  /** With `locked` false the mutexes are ignored: the variant the code must avoid. */
  predicate Enabled(c: Config, s: State, a: Action, locked: bool)
    requires WellFormed(c, s)
  {
    match a
    case Lock(t) => t in s.threads && s.threads[t].phase == Waiting && (locked ==> s.rawOwner == None)
    case Point(t) => t in s.threads && s.threads[t].phase == Holding && NextChunk(s.threads[t]).Some?
    case Fetch(t, n) => t in s.threads && s.threads[t].phase == Positioned && NextChunk(s.threads[t]).Some?
                        && n <= WindowLength(NextChunk(s.threads[t]).value.0, NextChunk(s.threads[t]).value.1)
                        && ReadsAt(c, s.pos[c.raw], n)
    case Unlock(t) => t in s.threads && s.threads[t].phase in {Holding, Positioned}
    case MetaLock(t) => locked ==> s.metaOwner == None
    case MetaPoint(t, target) => locked ==> s.metaOwner == Some(t)
    case MetaFetch(t, n) => (locked ==> s.metaOwner == Some(t)) && ReadsAt(c, s.pos[c.meta], n)
    case MetaUnlock(t) => locked ==> s.metaOwner == Some(t)
  }

  /** Bytes of the window that belong to the request. */
  function Requested(c: Config, pos: nat, chunk: (u64, nat), n: nat): seq<byte>
    requires ReadsAt(c, pos, n)
  {
    var k := Copied(chunk.0, chunk.1, n);
    if k == 0 then [] else c.bytes[pos + Lead(chunk.0)..pos + Lead(chunk.0) + k]
  }

  function Next(c: Config, s: State, a: Action, locked: bool): State
    requires WellFormed(c, s) && Enabled(c, s, a, locked)
  {
    match a
    case Lock(t) => s.(rawOwner := Some(t), threads := s.threads[t := s.threads[t].(phase := Holding)])
    case Point(t) =>
      var chunk := NextChunk(s.threads[t]).value;
      s.(pos := s.pos[c.raw := WindowStart(chunk.0)], threads := s.threads[t := s.threads[t].(phase := Positioned)])
    case Fetch(t, n) =>
      var th := s.threads[t];
      var data := Requested(c, s.pos[c.raw], NextChunk(th).value, n);
      s.(pos := s.pos[c.raw := s.pos[c.raw] + n],
         threads := s.threads[t := th.(got := th.got + data, phase := if data == [] then Done else Holding)],
         rawOwner := if data == [] then None else s.rawOwner)
    case Unlock(t) => s.(rawOwner := None, threads := s.threads[t := s.threads[t].(phase := Done)])
    case MetaLock(t) => s.(metaOwner := Some(t))
    case MetaPoint(t, target) => s.(pos := s.pos[c.meta := target])
    case MetaFetch(t, n) =>
      var p := s.pos[c.meta];
      s.(pos := s.pos[c.meta := p + n], metaGot := s.metaGot + [if n == 0 then [] else c.bytes[p..p + n]])
    case MetaUnlock(t) => s.(metaOwner := None)
  }

  predicate Run(c: Config, s: State, actions: seq<Action>, s': State, locked: bool)
    decreases |actions|
  {
    if actions == [] then s == s'
    else WellFormed(c, s) && Enabled(c, s, actions[0], locked) &&
         Run(c, Next(c, s, actions[0], locked), actions[1..], s', locked)
  }

  // ---- Safety of every interleaving -----------------------------------------------------------

  /** Only the mutex holder is inside a read, and a positioned thread finds the pointer where it left it. */
  predicate Owned(c: Config, s: State)
    requires WellFormed(c, s)
  {
    forall t :: t in s.threads && s.threads[t].phase in {Holding, Positioned} ==>
      && s.rawOwner == Some(t)
      && (s.threads[t].phase == Positioned ==>
            NextChunk(s.threads[t]).Some? && s.pos[c.raw] == WindowStart(NextChunk(s.threads[t]).value.0))
  }

  /** Everything read so far is the file's. */
  ghost predicate Faithful(c: Config, th: Thread) {
    Sound(th.job.ext, th.job.base) ==> FileHolds(th.job.ext, th.job.base, c.bytes, th.job.offset, th.got)
  }

  ghost predicate Safe(c: Config, s: State) {
    && WellFormed(c, s) && Owned(c, s)
    && forall t :: t in s.threads ==> Faithful(c, s.threads[t])
  }

  lemma FetchIsFaithful(c: Config, th: Thread, pos: nat, n: nat)
    requires ValidJob(th.job) && |th.got| <= th.job.toRead && NextChunk(th).Some? && Faithful(c, th)
    requires pos == WindowStart(NextChunk(th).value.0) && ReadsAt(c, pos, n)
    ensures var data := Requested(c, pos, NextChunk(th).value, n);
            |th.got + data| <= th.job.toRead && Faithful(c, th.(got := th.got + data))
  {
    var chunk := NextChunk(th).value;
    var data := Requested(c, pos, chunk, n);
    if Sound(th.job.ext, th.job.base) {
      ChunkExtends(th.job.ext, th.job.base, c.bytes, th.job.offset, th.got, data);
    }
  }

  lemma StepIsSafe(c: Config, s: State, a: Action)
    requires Safe(c, s) && Enabled(c, s, a, true)
    ensures Safe(c, Next(c, s, a, true))
  {
    if a.Fetch? {
      FetchIsFaithful(c, s.threads[a.t], s.pos[c.raw], a.n);
    }
  }

  lemma {:induction false} RunIsSafe(c: Config, s: State, actions: seq<Action>, s': State)
    requires Safe(c, s) && Run(c, s, actions, s', true)
    ensures Safe(c, s')
    decreases |actions|
  {
    if actions != [] {
      StepIsSafe(c, s, actions[0]);
      RunIsSafe(c, Next(c, s, actions[0], true), actions[1..], s');
    }
  }

  lemma InitialIsSafe(c: Config, s: State)
    requires Initial(c, s)
    ensures Safe(c, s)
  {
  }

  /** In every interleaving, every file read has at every moment exactly a prefix of its file's bytes. */
  lemma EveryInterleavingIsSafe(c: Config, s: State, actions: seq<Action>, s': State)
    requires Initial(c, s) && Run(c, s, actions, s', true)
    ensures Safe(c, s')
  {
    InitialIsSafe(c, s);
    RunIsSafe(c, s, actions, s');
  }

  // ---- No deadlock ------------------------------------------------------------------------------

  /** Whoever has the raw lock is inside a read. */
  predicate LockIsUsed(s: State) {
    s.rawOwner.Some? ==> s.rawOwner.value in s.threads && s.threads[s.rawOwner.value].phase in {Holding, Positioned}
  }

  lemma StepKeepsLockUsed(c: Config, s: State, a: Action)
    requires Safe(c, s) && LockIsUsed(s) && Enabled(c, s, a, true)
    ensures LockIsUsed(Next(c, s, a, true))
  {
  }

  lemma {:induction false} RunKeepsLockUsed(c: Config, s: State, actions: seq<Action>, s': State)
    requires Safe(c, s) && LockIsUsed(s) && Run(c, s, actions, s', true)
    ensures LockIsUsed(s')
    decreases |actions|
  {
    if actions != [] {
      StepIsSafe(c, s, actions[0]);
      StepKeepsLockUsed(c, s, actions[0]);
      RunKeepsLockUsed(c, Next(c, s, actions[0], true), actions[1..], s');
    }
  }

  /**
   In every interleaving, while a read has not returned, some read can go on; and the metadata side never
   waits for reads, only for its own lock.
   */
  lemma SomeReadCanGoOn(c: Config, s: State, actions: seq<Action>, s': State, t: Tid) returns (a: Action)
    requires Initial(c, s) && Run(c, s, actions, s', true)
    requires t in s'.threads && s'.threads[t].phase != Done
    ensures WellFormed(c, s') && !IsMeta(a) && Enabled(c, s', a, true)
    ensures s'.metaOwner == None ==> Enabled(c, s', MetaLock(t), true)
  {
    EveryInterleavingIsSafe(c, s, actions, s');
    InitialIsSafe(c, s);
    RunKeepsLockUsed(c, s, actions, s');
    a := if s'.rawOwner.Some? then Unlock(s'.rawOwner.value) else Lock(t);
  }

  // ---- The two handles do not disturb each other ------------------------------------------------

  predicate IsMeta(a: Action) {
    a.MetaLock? || a.MetaPoint? || a.MetaFetch? || a.MetaUnlock?
  }

  function Select(actions: seq<Action>, meta: bool): seq<Action> {
    if actions == [] then []
    else (if IsMeta(actions[0]) == meta then [actions[0]] else []) + Select(actions[1..], meta)
  }

  /** What one side can observe. */
  predicate SameView(c: Config, a: State, b: State, meta: bool)
    requires WellFormed(c, a) && WellFormed(c, b)
  {
    if meta then a.pos[c.meta] == b.pos[c.meta] && a.metaOwner == b.metaOwner && a.metaGot == b.metaGot
    else a.pos[c.raw] == b.pos[c.raw] && a.rawOwner == b.rawOwner && a.threads == b.threads
  }

  lemma StepKeepsSides(c: Config, s: State, q: State, a: Action, meta: bool)
    requires WellFormed(c, s) && WellFormed(c, q) && SameView(c, s, q, meta) && Enabled(c, s, a, true)
    requires WellFormed(c, Next(c, s, a, true))
    ensures IsMeta(a) != meta ==> SameView(c, Next(c, s, a, true), q, meta)
    ensures IsMeta(a) == meta ==> Enabled(c, q, a, true)
    ensures IsMeta(a) == meta && WellFormed(c, Next(c, q, a, true)) ==>
              SameView(c, Next(c, s, a, true), Next(c, q, a, true), meta)
  {
  }

  lemma RunCons(c: Config, s: State, a: Action, rest: seq<Action>, s': State, locked: bool)
    requires WellFormed(c, s) && Enabled(c, s, a, locked) && Run(c, Next(c, s, a, locked), rest, s', locked)
    ensures Run(c, s, [a] + rest, s', locked)
  {
    assert ([a] + rest)[1..] == rest;
  }

  /**
   Remove all steps of the other side from a run: it is still a run, and this side ends with the same
   file pointer, the same lock, and the same bytes.
   */
  lemma {:induction false} SidesAreIndependent(c: Config, s: State, q: State, actions: seq<Action>, s': State,
                                               meta: bool)
    returns (q': State)
    requires Safe(c, s) && Safe(c, q) && SameView(c, s, q, meta)
    requires Run(c, s, actions, s', true)
    ensures Run(c, q, Select(actions, meta), q', true)
    ensures Safe(c, s') && Safe(c, q') && SameView(c, s', q', meta)
    decreases |actions|
  {
    if actions == [] {
      q' := q;
    } else {
      var a := actions[0];
      StepIsSafe(c, s, a);
      StepKeepsSides(c, s, q, a, meta);
      if IsMeta(a) == meta {
        StepIsSafe(c, q, a);
        q' := SidesAreIndependent(c, Next(c, s, a, true), Next(c, q, a, true), actions[1..], s', meta);
        RunCons(c, q, a, Select(actions[1..], meta), q', true);
      } else {
        q' := SidesAreIndependent(c, Next(c, s, a, true), q, actions[1..], s', meta);
        assert Select(actions, meta) == Select(actions[1..], meta);
      }
    }
  }

  // ---- Why the mutex is needed ------------------------------------------------------------------

  /** A request for the one byte at `at`, of a file that lies there. */
  function OneByte(at: u64, phase: Phase): Thread {
    Thread(Job([Extent(at, at, 1)], 0, at, 1), [], phase)
  }

  lemma OneByteChunk(at: u64, phase: Phase)
    requires at + 1 < TWO64
    ensures NextChunk(OneByte(at, phase)) == Some((at, 1))
  {
  }

  /** Two threads both inside the section that the mutex should have kept apart. */
  function Inside(pos: int, phase0: Phase, phase1: Phase): State {
    State(map[1 := pos, 2 := 0], Some(1), None, map[0 := OneByte(0, phase0), 1 := OneByte(512, phase1)], [])
  }

  lemma FirstPoints(c: Config)
    requires c.raw == 1 && c.meta == 2
    ensures WellFormed(c, Inside(0, Holding, Holding)) && Enabled(c, Inside(0, Holding, Holding), Point(0), false)
    ensures Next(c, Inside(0, Holding, Holding), Point(0), false) == Inside(0, Positioned, Holding)
  {
    OneByteChunk(0, Holding);
  }

  lemma SecondPoints(c: Config)
    requires c.raw == 1 && c.meta == 2
    ensures WellFormed(c, Inside(0, Positioned, Holding)) && Enabled(c, Inside(0, Positioned, Holding), Point(1), false)
    ensures Next(c, Inside(0, Positioned, Holding), Point(1), false) == Inside(512, Positioned, Positioned)
  {
    OneByteChunk(512, Holding);
  }

  lemma FirstFetches(c: Config) returns (s': State)
    requires c.raw == 1 && c.meta == 2 && |c.bytes| >= 1024
    ensures WellFormed(c, Inside(512, Positioned, Positioned))
    ensures Enabled(c, Inside(512, Positioned, Positioned), Fetch(0, 512), false)
    ensures s' == Next(c, Inside(512, Positioned, Positioned), Fetch(0, 512), false)
    ensures 0 in s'.threads && s'.threads[0].job == OneByte(0, Done).job && s'.threads[0].got == [c.bytes[512]]
  {
    OneByteChunk(0, Positioned);
    s' := Next(c, Inside(512, Positioned, Positioned), Fetch(0, 512), false);
  }

  lemma PointersCross(c: Config) returns (actions: seq<Action>, s': State)
    requires c.raw == 1 && c.meta == 2 && |c.bytes| >= 1024
    ensures Run(c, Inside(0, Holding, Holding), actions, s', false)
    ensures 0 in s'.threads && s'.threads[0].job == OneByte(0, Done).job && s'.threads[0].got == [c.bytes[512]]
  {
    FirstPoints(c);
    SecondPoints(c);
    s' := FirstFetches(c);
    var third := [Fetch(0, 512)] + [];
    RunCons(c, Inside(512, Positioned, Positioned), Fetch(0, 512), [], s', false);
    RunCons(c, Inside(0, Positioned, Holding), Point(1), third, s', false);
    actions := [Point(0)] + ([Point(1)] + third);
    RunCons(c, Inside(0, Holding, Holding), Point(0), [Point(1)] + third, s', false);
  }

  /**
   Without the mutex, SetFilePointerEx and ReadFile of two threads cross: thread 0 wants byte 0 of the
   disk, thread 1 moves the pointer to byte 512 in between, and thread 0 returns byte 512.
   */
  lemma WithoutMutexReadsGoWrong(bytes: Image) returns (c: Config, s: State, actions: seq<Action>, s': State)
    requires |bytes| >= 1024 && bytes[0] != bytes[512]
    ensures Initial(c, s) && Run(c, s, actions, s', false)
    ensures 0 in s'.threads && !Faithful(c, s'.threads[0])
  {
    c := Config(bytes, 1, 2);
    s := State(map[1 := 0, 2 := 0], None, None, map[0 := OneByte(0, Waiting), 1 := OneByte(512, Waiting)], []);
    var crossing;
    crossing, s' := PointersCross(c);
    var s1 := Next(c, s, Lock(0), false);
    assert Next(c, s1, Lock(1), false) == Inside(0, Holding, Holding);
    RunCons(c, s1, Lock(1), crossing, s', false);
    actions := [Lock(0)] + ([Lock(1)] + crossing);
    RunCons(c, s, Lock(0), [Lock(1)] + crossing, s', false);
    WrongByte(c, bytes, s'.threads[0]);
  }

  lemma WrongByte(c: Config, bytes: Image, th: Thread)
    requires |bytes| >= 1024 && bytes[0] != bytes[512] && c.bytes == bytes
    requires th.job == OneByte(0, Done).job && th.got == [bytes[512]]
    ensures !Faithful(c, th)
  {
    assert th.job.ext == [Extent(0, 0, 1)];
    assert !ByteAt(th.job.ext, 0, bytes, 0 + 0, th.got[0]);
  }
}
