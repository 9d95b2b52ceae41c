/**
 src/device_watcher.rs: the boxed sender shared with OS callbacks. Registration, callbacks on OS
 threads and the drop of the watcher interleave; the OS promises that unregistering returns only when
 no callback is in flight and none will start.
 */
module Watcher {
  type CallbackId = nat

  datatype OsAction = Arrival | Removal | Other
  datatype DeviceEvent = Added | Removed

  /** Where `new` and `drop` are. */
  datatype Phase = Fresh | Boxed | Registered | Unregistering | Unregistered | Failed | Gone

  datatype Callback = Callback(action: OsAction, sent: bool)

  datatype State = State(
    phase: Phase,
    senderLive: bool,                    // the box exists
    frees: nat,
    inflight: map<CallbackId, Callback>,
    queue: seq<DeviceEvent>,             // what went into the channel
    log: seq<OsAction>,                  // actions of the callbacks, in the order they came to send
    misused: bool)                       // some callback touched a freed sender

  datatype Step =
    | Box
    | RegisterOk
    | RegisterFails
    | ReclaimAfterFailure
    | Enter(id: CallbackId, action: OsAction)
    | Send(id: CallbackId)
    | Leave(id: CallbackId)
    | BeginUnregister
    | EndUnregister
    | Free

  function Start(): State {
    State(Fresh, false, 0, map[], [], [], false)
  }

  function EventOf(action: OsAction): seq<DeviceEvent> {
    match action
    case Arrival => [Added]
    case Removal => [Removed]
    case Other => []
  }

  function Events(log: seq<OsAction>): seq<DeviceEvent> {
    if log == [] then [] else Events(log[..|log| - 1]) + EventOf(log[|log| - 1])
  }

  /** `waits`: unregistering waits for the callbacks in flight. */
  predicate Enabled(s: State, step: Step, waits: bool) {
    match step
    case Box => s.phase == Fresh
    case RegisterOk => s.phase == Boxed
    case RegisterFails => s.phase == Boxed
    case ReclaimAfterFailure => s.phase == Failed && s.senderLive
    case Enter(id, _) => s.phase in {Registered, Unregistering} && id !in s.inflight
    case Send(id) => id in s.inflight && !s.inflight[id].sent
    case Leave(id) => id in s.inflight && s.inflight[id].sent
    case BeginUnregister => s.phase == Registered
    case EndUnregister => s.phase == Unregistering && (waits ==> s.inflight == map[])
    case Free => s.phase == Unregistered
  }

  function Next(s: State, step: Step, waits: bool): State
    requires Enabled(s, step, waits)
  {
    match step
    case Box => s.(phase := Boxed, senderLive := true)
    case RegisterOk => s.(phase := Registered)
    case RegisterFails => s.(phase := Failed)
    case ReclaimAfterFailure => s.(phase := Gone, senderLive := false, frees := s.frees + 1)
    case Enter(id, action) => s.(inflight := s.inflight[id := Callback(action, false)])
    case Send(id) =>
      var action := s.inflight[id].action;
      s.(misused := s.misused || !s.senderLive,
         queue := s.queue + EventOf(action),
         log := s.log + [action],
         inflight := s.inflight[id := Callback(action, true)])
    case Leave(id) => s.(inflight := s.inflight - {id})
    case BeginUnregister => s.(phase := Unregistering)
    case EndUnregister => s.(phase := Unregistered)
    case Free => s.(phase := Gone, senderLive := false, frees := s.frees + 1)
  }

  predicate Run(s: State, steps: seq<Step>, s': State, waits: bool)
    decreases |steps|
  {
    if steps == [] then s == s'
    else Enabled(s, steps[0], waits) && Run(Next(s, steps[0], waits), steps[1..], s', waits)
  }

  /** No misuse; the box lives from Box to its one release; the channel holds exactly the logged events. */
  predicate Safe(s: State) {
    && !s.misused
    && (s.senderLive <==> s.phase != Fresh && s.phase != Gone)
    && s.frees == (if s.phase == Gone then 1 else 0)
    && (s.phase !in {Registered, Unregistering} ==> s.inflight == map[])
    && s.queue == Events(s.log)
  }

  lemma EventsSnoc(log: seq<OsAction>, action: OsAction)
    ensures Events(log + [action]) == Events(log) + EventOf(action)
  {
    assert (log + [action])[..|log|] == log;
  }

  lemma StepIsSafe(s: State, step: Step)
    requires Safe(s) && Enabled(s, step, true)
    ensures Safe(Next(s, step, true))
  {
    match step
    case Send(id) =>
      assert s.inflight != map[];
      EventsSnoc(s.log, s.inflight[id].action);
    case Leave(id) => assert s.inflight != map[];
    case _ =>
  }

  /**
   In every interleaving no callback touches a freed sender, the sender is freed exactly once when the
   watcher is gone, by drop or by the failure path, and never before, and the queued events are the
   arrivals and removals in send order.
   */
  lemma {:induction false} EveryRunIsSafe(s: State, steps: seq<Step>, s': State)
    requires Safe(s) && Run(s, steps, s', true)
    ensures Safe(s')
    decreases |steps|
  {
    if steps != [] {
      StepIsSafe(s, steps[0]);
      EveryRunIsSafe(Next(s, steps[0], true), steps[1..], s');
    }
  }

  lemma WatcherIsSafe(steps: seq<Step>, s': State)
    requires Run(Start(), steps, s', true)
    ensures Safe(s')
  {
    EveryRunIsSafe(Start(), steps, s');
  }

  // ---- What the channel holds ---------------------------------------------------------------------

  /** How many of these actions are arrivals or removals. */
  function Seen(log: seq<OsAction>): nat {
    if log == [] then 0 else Seen(log[..|log| - 1]) + (if log[|log| - 1] == Other then 0 else 1)
  }

  /** One event per arrival or removal, at the place that those in front of it leave, and of its kind. */
  lemma {:induction false} EventsInOrder(log: seq<OsAction>, i: nat)
    requires i < |log| && log[i] != Other
    ensures Seen(log[..i]) < |Events(log)| == Seen(log)
    ensures Events(log)[Seen(log[..i])] == if log[i] == Arrival then Added else Removed
    decreases |log|
  {
    var front := log[..|log| - 1];
    EventCount(front);
    if i < |front| {
      EventsInOrder(front, i);
      assert front[..i] == log[..i];
    }
  }

  lemma {:induction false} EventCount(log: seq<OsAction>)
    ensures |Events(log)| == Seen(log)
    decreases |log|
  {
    if log != [] {
      EventCount(log[..|log| - 1]);
    }
  }

  /** The actions that callbacks have been entered with, after one more step. */
  function Entered(entered: map<CallbackId, OsAction>, step: Step): map<CallbackId, OsAction> {
    if step.Enter? then entered[step.id := step.action] else entered
  }

  /** What this step sends: the action its callback was entered with. */
  function SentNow(entered: map<CallbackId, OsAction>, step: Step): seq<OsAction> {
    if step.Send? && step.id in entered then [entered[step.id]] else []
  }

  /** The actions of the callbacks that send along these steps. */
  function SentActions(entered: map<CallbackId, OsAction>, steps: seq<Step>): seq<OsAction>
    decreases |steps|
  {
    if steps == [] then []
    else SentNow(entered, steps[0]) + SentActions(Entered(entered, steps[0]), steps[1..])
  }

  ghost predicate KnowsActions(s: State, entered: map<CallbackId, OsAction>) {
    forall id :: id in s.inflight ==> id in entered && entered[id] == s.inflight[id].action
  }

  lemma StepLogs(s: State, entered: map<CallbackId, OsAction>, step: Step, waits: bool)
    requires KnowsActions(s, entered) && Enabled(s, step, waits)
    ensures KnowsActions(Next(s, step, waits), Entered(entered, step))
    ensures Next(s, step, waits).log == s.log + SentNow(entered, step)
  {
  }

  lemma LogsAppend(a: seq<OsAction>, b: seq<OsAction>, c: seq<OsAction>)
    ensures a + b + c == a + (b + c)
  {
  }

  lemma {:induction false} LogIsSent(s: State, entered: map<CallbackId, OsAction>, steps: seq<Step>, s': State,
                                     waits: bool)
    requires KnowsActions(s, entered) && Run(s, steps, s', waits)
    ensures s'.log == s.log + SentActions(entered, steps)
    decreases |steps|
  {
    if steps != [] {
      StepLogs(s, entered, steps[0], waits);
      var next, more := Next(s, steps[0], waits), Entered(entered, steps[0]);
      LogIsSent(next, more, steps[1..], s', waits);
      LogsAppend(s.log, SentNow(entered, steps[0]), SentActions(more, steps[1..]));
    }
  }

  /**
   In every run the channel holds one event for each callback that has sent an arrival or a removal, in
   the order of sending, of the kind that callback was entered with; other actions leave nothing.
   */
  lemma ChannelHoldsWhatWasSent(steps: seq<Step>, s': State)
    requires Run(Start(), steps, s', true)
    ensures var sent := SentActions(map[], steps);
            && |s'.queue| == Seen(sent)
            && forall i :: 0 <= i < |sent| && sent[i] != Other ==>
                 && Seen(sent[..i]) < |s'.queue|
                 && s'.queue[Seen(sent[..i])] == if sent[i] == Arrival then Added else Removed
  {
    var sent := SentActions(map[], steps);
    LogIsSent(Start(), map[], steps, s', true);
    assert s'.log == [] + sent == sent;
    WatcherIsSafe(steps, s');
    EventCount(sent);
    forall i | 0 <= i < |sent| && sent[i] != Other
      ensures Seen(sent[..i]) < |s'.queue|
      ensures s'.queue[Seen(sent[..i])] == if sent[i] == Arrival then Added else Removed
    {
      EventsInOrder(sent, i);
    }
  }

  lemma RunCons(s: State, step: Step, rest: seq<Step>, s': State, waits: bool)
    requires Enabled(s, step, waits) && Run(Next(s, step, waits), rest, s', waits)
    ensures Run(s, [step] + rest, s', waits)
  {
    assert ([step] + rest)[1..] == rest;
  }

  /** What drop waits for can always come: callbacks in flight finish, and then the sender is freed. */
  lemma {:induction false} DropCanFinish(s: State) returns (steps: seq<Step>, s': State)
    requires Safe(s) && s.phase == Unregistering
    ensures Run(s, steps, s', true) && s'.phase == Gone && s'.frees == 1
    decreases |s.inflight|, 1
  {
    if s.inflight == map[] {
      var s1 := Next(s, EndUnregister, true);
      s' := Next(s1, Free, true);
      RunCons(s1, Free, [], s', true);
      RunCons(s, EndUnregister, [Free] + [], s', true);
      steps := [EndUnregister] + ([Free] + []);
    } else {
      var id :| id in s.inflight;
      if s.inflight[id].sent {
        steps, s' := LeaveThenFinish(s, id);
      } else {
        var s1 := Next(s, Send(id), true);
        StepIsSafe(s, Send(id));
        assert s1.inflight.Keys == s.inflight.Keys;
        assert |s1.inflight.Keys| == |s1.inflight| && |s.inflight.Keys| == |s.inflight|;
        var rest;
        rest, s' := LeaveThenFinish(s1, id);
        RunCons(s, Send(id), rest, s', true);
        steps := [Send(id)] + rest;
      }
    }
  }

  lemma {:induction false} LeaveThenFinish(s: State, id: CallbackId) returns (steps: seq<Step>, s': State)
    requires Safe(s) && s.phase == Unregistering && id in s.inflight && s.inflight[id].sent
    ensures Run(s, steps, s', true) && s'.phase == Gone && s'.frees == 1
    decreases |s.inflight|, 0
  {
    var s1 := Next(s, Leave(id), true);
    StepIsSafe(s, Leave(id));
    assert |s.inflight - {id}| == |s.inflight| - 1;
    var rest;
    rest, s' := DropCanFinish(s1);
    RunCons(s, Leave(id), rest, s', true);
    steps := [Leave(id)] + rest;
  }

  /** A registration that fails ends with the sender freed once as well. */
  lemma FailureCanFinish() returns (steps: seq<Step>, s': State)
    ensures Run(Start(), steps, s', true) && s'.phase == Gone && s'.frees == 1
    ensures RegisterFails in steps
  {
    var s1 := Next(Start(), Box, true);
    var s2 := Next(s1, RegisterFails, true);
    s' := Next(s2, ReclaimAfterFailure, true);
    RunCons(s2, ReclaimAfterFailure, [], s', true);
    steps := [ReclaimAfterFailure] + [];
    RunCons(s1, RegisterFails, steps, s', true);
    steps := [RegisterFails] + steps;
    RunCons(Start(), Box, steps, s', true);
    steps := [Box] + steps;
  }

  /** A callback that was in flight when the sender was freed. */
  function Dangling(): State {
    State(Gone, false, 1, map[0 := Callback(Arrival, false)], [], [], false)
  }

  lemma WithoutWaitCallbackDangles() returns (steps: seq<Step>)
    ensures Run(Start(), steps, Dangling(), false)
  {
    var s1 := Next(Start(), Box, false);
    var s2 := Next(s1, RegisterOk, false);
    var s3 := Next(s2, Enter(0, Arrival), false);
    var s4 := Next(s3, BeginUnregister, false);
    var s5 := Next(s4, EndUnregister, false);
    assert Next(s5, Free, false) == Dangling();
    RunCons(s5, Free, [], Dangling(), false);
    steps := [Free] + [];
    RunCons(s4, EndUnregister, steps, Dangling(), false);
    steps := [EndUnregister] + steps;
    RunCons(s3, BeginUnregister, steps, Dangling(), false);
    steps := [BeginUnregister] + steps;
    RunCons(s2, Enter(0, Arrival), steps, Dangling(), false);
    steps := [Enter(0, Arrival)] + steps;
    RunCons(s1, RegisterOk, steps, Dangling(), false);
    steps := [RegisterOk] + steps;
    RunCons(Start(), Box, steps, Dangling(), false);
    steps := [Box] + steps;
  }

  /** Without the wait such a callback is reached, and its send touches the freed sender. */
  lemma WithoutWaitSenderIsMisused() returns (steps: seq<Step>, s': State)
    ensures Run(Start(), steps, Dangling(), false)
    ensures Enabled(Dangling(), Send(0), false) && s' == Next(Dangling(), Send(0), false) && s'.misused
  {
    steps := WithoutWaitCallbackDangles();
    s' := Next(Dangling(), Send(0), false);
  }
}
