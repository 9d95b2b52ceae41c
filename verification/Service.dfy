/** src/service.rs: run_service, the bounded wait for WinFsp and the statuses it reports. */
module Service {

  const WAIT_TIMEOUT := 60000
  const POLL_INTERVAL := 500

  datatype Status = StartPending(checkpoint: nat) | Running | Stopped(exitCode: nat)

  datatype Outcome = StatusError | TimedOut | DaemonFailed | Finished

  /**
   The outside, by attempt: whether WinFsp initialises, what the clock says, and whether the service
   manager accepts the status reported next.
   */
  datatype Outside = Outside(initOk: nat -> bool, now: nat -> nat, accepts: Status -> bool)

  /** Between two attempts lies a sleep of at least the poll interval. */
  ghost predicate SleepsLongEnough(e: Outside, start: nat) {
    e.now(0) >= start && forall i: nat :: e.now(i + 1) >= e.now(i) + POLL_INTERVAL
  }

  lemma {:induction false} ClockAdvances(e: Outside, start: nat, i: nat)
    requires SleepsLongEnough(e, start)
    ensures e.now(i) >= start + i * POLL_INTERVAL
  {
    if i > 0 {
      ClockAdvances(e, start, i - 1);
      assert e.now(i - 1 + 1) >= e.now(i - 1) + POLL_INTERVAL;
    }
  }

  /** The statuses of k rounds of waiting: checkpoints 1, 2, 3, … */
  function Pendings(k: nat): seq<Status> {
    seq(k, i requires 0 <= i < k => StartPending(i + 1))
  }

  /** Round i ends the waiting. */
  predicate Ends(e: Outside, start: nat, i: nat) {
    e.initOk(i) || e.now(i) >= start + WAIT_TIMEOUT || !e.accepts(StartPending(i + 1))
  }

  /** The waiting took k rounds: k is the first that ends it. */
  predicate Waited(e: Outside, start: nat, k: nat) {
    Ends(e, start, k) && forall i: nat :: i < k ==> !Ends(e, start, i)
  }

  /** What is reported, and how the service leaves, when waiting ended with round k. */
  predicate Reported(e: Outside, start: nat, daemonOk: bool, k: nat, reports: seq<Status>, outcome: Outcome) {
    if e.initOk(k) then
      if !e.accepts(Running) then reports == Pendings(k) + [Running] && outcome == StatusError
      else if !daemonOk then reports == Pendings(k) + [Running] && outcome == DaemonFailed
      else reports == Pendings(k) + [Running, Stopped(0)] &&
           outcome == (if e.accepts(Stopped(0)) then Finished else StatusError)
    else if e.now(k) >= start + WAIT_TIMEOUT then
      reports == Pendings(k) + [Stopped(1)] && outcome == (if e.accepts(Stopped(1)) then TimedOut else StatusError)
    else reports == Pendings(k + 1) && outcome == StatusError
  }

  /**
   The start-up loop makes at most 120 StartPending reports, with consecutive checkpoints, and then
   reports Running, or Stopped(1) after the deadline, or leaves with the error of a refused status.
   */
  method RunService(e: Outside, start: nat, daemonOk: bool) returns (reports: seq<Status>, outcome: Outcome, k: nat)
    requires SleepsLongEnough(e, start)
    ensures Waited(e, start, k) && k <= 120
    ensures e.initOk(k) || e.now(k) >= start + WAIT_TIMEOUT || k < 120
    ensures Reported(e, start, daemonOk, k, reports, outcome)
  {
    var checkpoint := 0;
    var deadline := start + WAIT_TIMEOUT;
    reports := [];
    k := 0;
    while !e.initOk(k)
      invariant checkpoint == k <= 120 && reports == Pendings(k)
      invariant forall i: nat :: i < k ==> !Ends(e, start, i)
      decreases 121 - k
    {
      ClockAdvances(e, start, k);
      if e.now(k) >= deadline {
        reports := reports + [Stopped(1)];
        return reports, if e.accepts(Stopped(1)) then TimedOut else StatusError, k;
      }
      checkpoint := checkpoint + 1;
      reports := reports + [StartPending(checkpoint)];
      if !e.accepts(StartPending(checkpoint)) {
        return reports, StatusError, k;
      }
      k := k + 1;
    }
    reports := reports + [Running];
    if !e.accepts(Running) {
      return reports, StatusError, k;
    }
    if !daemonOk {
      return reports, DaemonFailed, k;
    }
    reports := reports + [Stopped(0)];
    outcome := if e.accepts(Stopped(0)) then Finished else StatusError;
  }

  /** 120 is reached: WinFsp never comes, and every sleep takes exactly the poll interval. */
  lemma OneHundredTwentyRoundsHappen(e: Outside)
    requires forall i: nat :: !e.initOk(i) && e.accepts(StartPending(i + 1)) && e.now(i) == i * POLL_INTERVAL
    ensures SleepsLongEnough(e, 0) && Waited(e, 0, 120)
  {
    forall i: nat
      ensures e.now(i + 1) >= e.now(i) + POLL_INTERVAL
    {
      assert e.now(i) == i * POLL_INTERVAL && e.now(i + 1) == (i + 1) * POLL_INTERVAL;
    }
  }

  /** What the reports mean to the service manager. */
  lemma ReportsTell(e: Outside, start: nat, daemonOk: bool, k: nat, reports: seq<Status>, outcome: Outcome)
    requires Reported(e, start, daemonOk, k, reports, outcome)
    ensures k <= |reports| && forall i :: 0 <= i < k ==> reports[i] == StartPending(i + 1)
    ensures Running in reports <==> e.initOk(k)
    ensures Running in reports ==> reports[k] == Running
    ensures Stopped(1) in reports <==> !e.initOk(k) && e.now(k) >= start + 60000
    ensures Stopped(0) in reports <==> e.initOk(k) && e.accepts(Running) && daemonOk
    ensures outcome.Finished? <==> Stopped(0) in reports && e.accepts(Stopped(0))
    ensures outcome.TimedOut? <==> Stopped(1) in reports && e.accepts(Stopped(1))
    ensures outcome.DaemonFailed? <==> e.initOk(k) && e.accepts(Running) && !daemonOk
  {
    assert forall n :: Running !in Pendings(n) && Stopped(0) !in Pendings(n) && Stopped(1) !in Pendings(n);
    if e.initOk(k) {
      assert reports[k] == Running;
    } else if e.now(k) >= start + WAIT_TIMEOUT {
      assert reports[k] == Stopped(1);
    }
    if e.initOk(k) && e.accepts(Running) && daemonOk {
      assert reports[k + 1] == Stopped(0);
    }
  }

  lemma WaitingIsDetermined(e: Outside, start: nat, j: nat, k: nat)
    requires Waited(e, start, j) && Waited(e, start, k)
    ensures j == k
  {
  }

  /** The outside alone decides the rounds, the reports and the exit. */
  lemma OutsideDecides(e: Outside, start: nat, daemonOk: bool, j: nat, reports: seq<Status>, outcome: Outcome,
                       k: nat, reports': seq<Status>, outcome': Outcome)
    requires Waited(e, start, j) && Reported(e, start, daemonOk, j, reports, outcome)
    requires Waited(e, start, k) && Reported(e, start, daemonOk, k, reports', outcome')
    ensures j == k && reports == reports' && outcome == outcome'
  {
    WaitingIsDetermined(e, start, j, k);
  }
}
