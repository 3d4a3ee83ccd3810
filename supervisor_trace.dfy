/**
 * The observable behaviour of the mobileconnd watchdog (mobileconnd.c) as a trace of the
 * system calls it makes.  The watchdog probes the link with ping, and when the probe fails it
 * stops the dialer it started last time (SIGTERM, a grace period, SIGKILL) and forks a fresh
 * one that execs the autowvdial script.  A SIGTERM/SIGINT handler sets the stop flag DONE and
 * forwards SIGTERM to the recorded child.
 *
 * This module holds the vocabulary (constants, events, one loop iteration as a list of
 * events) and the trace language WellSupervised, which every trace of the watchdog belongs
 * to, with the laws that follow from it.  The class that produces the traces is in
 * module Mobileconnd.
 */
module SupervisorTrace {
  import opened Wrappers

  // Linux signal numbers and the <stdlib.h> exit statuses.
  const SIGINT: int := 2
  const SIGKILL: int := 9
  const SIGTERM: int := 15
  const EXIT_SUCCESS: int := 0
  const EXIT_FAILURE: int := 1

  /** The value of CHILD_PID while no dialer is recorded. */
  const NO_CHILD: int := -1
  /** Seconds between the orderly and the forced kill of a stale dialer. */
  const GRACE_PERIOD: int := 5
  /** Seconds slept at the end of every iteration (60 * 5). */
  const PROBE_INTERVAL: int := 60 * 5

  // The dialer's fixed invocation.
  const DIAL_SCRIPT: string := "autowvdial"
  const MODEM: string := "/dev/gsmmodem"
  const DIALER: string := "LTE"
  const PIN: string := "00000000"
  const DIAL_TIMEOUT: string := "60"
  /** The argument vector passed to execlp, starting with argv[0]. */
  const DIAL_ARGV: seq<string> := [DIAL_SCRIPT, MODEM, PIN, "-d", DIALER, "-t", DIAL_TIMEOUT]

  /** One recorded side effect of the watchdog process. */
  datatype Event =
      /** The signal handler ran for signo; forwardedTo is the pid it sent SIGTERM to. */
    | Handled(signo: int, forwardedTo: Option<int>)
      /** The reachability probe ran and exited with status. */
    | Probe(status: int)
      /** kill(pid, sig) from the main loop. */
    | Kill(pid: int, sig: int)
      /** sleep(seconds). */
    | Sleep(seconds: int)
      /** fork() returned result in this process. */
    | Fork(result: int)
      /** execlp(file, argv...). */
    | Exec(file: string, argv: seq<string>)
      /** exit(code), _exit(code), or returning code from main. */
    | Exit(code: int)

  /** The signals the handler reacts to. */
  predicate IsStopSignal(signo: int) {
    signo == SIGTERM || signo == SIGINT
  }

  predicate AnyStop(signals: seq<int>) {
    exists i :: 0 <= i < |signals| && IsStopSignal(signals[i])
  }

  /** What one run of the handler records while CHILD_PID holds pid. */
  function HandlerEvent(signo: int, pid: int): (e: Event) {
    Handled(signo, if IsStopSignal(signo) then Some(pid) else None)
  }

  /** The handler runs for each of signals in turn, while CHILD_PID holds pid. */
  function HandlerTrace(signals: seq<int>, pid: int): (handled: seq<Event>)
    decreases |signals|
  {
    if signals == [] then [] else HandlerTrace(Init(signals), pid) + [HandlerEvent(Last(signals), pid)]
  }

  /** The events issued by the main loop itself: t without the handler's runs. */
  function MainEvents(t: seq<Event>): (main: seq<Event>)
    decreases |t|
  {
    if t == [] then []
    else if Last(t).Handled? then MainEvents(Init(t))
    else MainEvents(Init(t)) + [Last(t)]
  }

  /** The most recent event of the main loop, if any. */
  function LastMain(t: seq<Event>): (last: Option<Event>) {
    var m := MainEvents(t);
    if m == [] then None else Some(Last(m))
  }

  /** The child slot CHILD_PID as the trace determines it: set by fork, cleared after SIGKILL. */
  function Slot(t: seq<Event>): (pid: int)
    decreases |t|
  {
    if t == [] then NO_CHILD
    else match Last(t)
      case Fork(r) => r
      case Kill(_, sig) => if sig == SIGKILL then NO_CHILD else Slot(Init(t))
      case _ => Slot(Init(t))
  }

  /** The events that change the child slot. */
  predicate ChangesSlot(e: Event) {
    e.Fork? || (e.Kill? && e.sig == SIGKILL)
  }

  /** Some run of the handler has seen SIGTERM or SIGINT: the stop flag DONE is set. */
  predicate StopRequested(t: seq<Event>)
    decreases |t|
  {
    t != [] && ((Last(t).Handled? && IsStopSignal(Last(t).signo)) || StopRequested(Init(t)))
  }

  /** The control is at the top of the while loop: nothing done yet, or the 300 s sleep. */
  predicate AtLoopTop(t: seq<Event>) {
    LastMain(t) == None || LastMain(t) == Some(Sleep(PROBE_INTERVAL))
  }

  predicate IsFailedProbe(e: Event) {
    e.Probe? && e.status != EXIT_SUCCESS
  }

  /** The main loop's last two events are the orderly kill of pid and the grace sleep. */
  predicate GraceBefore(t: seq<Event>, pid: int) {
    var m := MainEvents(t);
    |m| >= 2 && m[|m| - 2] == Kill(pid, SIGTERM) && m[|m| - 1] == Sleep(GRACE_PERIOD)
  }

  /** Whether the watchdog can issue e after the events before. */
  predicate EventAllowed(before: seq<Event>, e: Event) {
    var last := LastMain(before);
    match e
    case Handled(signo, fwd) =>
      fwd == (if IsStopSignal(signo) then Some(Slot(before)) else None)
    case Probe(_) =>
      !StopRequested(before) && AtLoopTop(before)
    case Kill(pid, sig) =>
      pid == Slot(before) && pid != NO_CHILD &&
      ((sig == SIGTERM && last.Some? && IsFailedProbe(last.value)) ||
       (sig == SIGKILL && GraceBefore(before, pid)))
    case Sleep(n) =>
      (n == GRACE_PERIOD && last == Some(Kill(Slot(before), SIGTERM))) ||
      (n == PROBE_INTERVAL && last.Some? &&
       (last.value == Probe(EXIT_SUCCESS) || (last.value.Fork? && last.value.result > 0)))
    case Fork(_) =>
      Slot(before) == NO_CHILD && last.Some? &&
      (IsFailedProbe(last.value) || (last.value.Kill? && last.value.sig == SIGKILL))
    case Exec(file, argv) =>
      file == DIAL_SCRIPT && argv == DIAL_ARGV && last == Some(Fork(0))
    case Exit(code) =>
      (code == EXIT_SUCCESS && StopRequested(before) && AtLoopTop(before)) ||
      (code == EXIT_FAILURE && last.Some? &&
       ((last.value.Fork? && last.value.result < 0) || last.value.Exec?))
  }

  /** The trace language of the watchdog: every event is allowed after its predecessors. */
  predicate WellSupervised(t: seq<Event>)
    decreases |t|
  {
    t == [] || (WellSupervised(Init(t)) && EventAllowed(Init(t), Last(t)))
  }

  /** The environment's choices for one iteration of the while loop. */
  datatype Round = Round(
    probeStatus: int,        // exit status of the ping command
    duringProbe: seq<int>,   // signals delivered while the probe runs
    duringGrace: seq<int>,   // signals delivered during the grace period
    forkResult: int,         // what fork() returns in this process
    execOk: bool,            // in the child copy: execlp replaced the image
    duringSleep: seq<int>)   // signals delivered during the 300 s sleep

  /** How the process leaves an iteration. */
  datatype Fate =
    | Looping           // the watchdog goes on to the loop test
    | Exited(code: int) // this process ended with code
    | BecameDialer      // this (child) process now runs the dialer

  /** Stopping the recorded child pid, with signals delivered during the grace period. */
  function StaleStopEvents(pid: int, graceSignals: seq<int>): (events: seq<Event>) {
    if pid == NO_CHILD then []
    else [Kill(pid, SIGTERM), Sleep(GRACE_PERIOD)] + HandlerTrace(graceSignals, pid) + [Kill(pid, SIGKILL)]
  }

  /** fork() and what this process does next; the parent records the pid and goes on. */
  function SpawnEvents(forkResult: int, execOk: bool): (events: seq<Event>) {
    [Fork(forkResult)] +
    if forkResult < 0 then [Exit(EXIT_FAILURE)]
    else if forkResult == 0 then
      [Exec(DIAL_SCRIPT, DIAL_ARGV)] + (if execOk then [] else [Exit(EXIT_FAILURE)])
    else []
  }

  function SpawnFate(forkResult: int, execOk: bool): (fate: Fate) {
    if forkResult < 0 then Exited(EXIT_FAILURE)
    else if forkResult == 0 then (if execOk then BecameDialer else Exited(EXIT_FAILURE))
    else Looping
  }

  /** The events of one iteration of the while loop entered with CHILD_PID == pid. */
  function IterationEvents(pid: int, r: Round): (events: seq<Event>) {
    [Probe(r.probeStatus)] + HandlerTrace(r.duringProbe, pid) + IterationTail(pid, r)
  }

  /** What follows the probe and the signals delivered during it. */
  function IterationTail(pid: int, r: Round): (events: seq<Event>) {
    if r.probeStatus == EXIT_SUCCESS then
      [Sleep(PROBE_INTERVAL)] + HandlerTrace(r.duringSleep, pid)
    else
      StaleStopEvents(pid, r.duringGrace) + SpawnEvents(r.forkResult, r.execOk) +
      if SpawnFate(r.forkResult, r.execOk) == Looping then
        [Sleep(PROBE_INTERVAL)] + HandlerTrace(r.duringSleep, r.forkResult)
      else []
  }

  function IterationFate(r: Round): (fate: Fate) {
    if r.probeStatus == EXIT_SUCCESS then Looping else SpawnFate(r.forkResult, r.execOk)
  }

  /** The signals the handler sees during one iteration entered with CHILD_PID == pid. */
  function Delivered(pid: int, r: Round): (signals: seq<int>) {
    r.duringProbe +
    (if r.probeStatus != EXIT_SUCCESS && pid != NO_CHILD then r.duringGrace else []) +
    (if IterationFate(r) == Looping then r.duringSleep else [])
  }

  /** CHILD_PID after one iteration entered with CHILD_PID == pid. */
  function PidAfter(pid: int, r: Round): (after: int) {
    if r.probeStatus == EXIT_SUCCESS then pid else r.forkResult
  }

  /** What the while loop does over a schedule: its events, how it ends, the rounds it ran. */
  datatype RunResult = RunResult(events: seq<Event>, fate: Fate, used: nat)

  /**
   * The loop entered with DONE == done and CHILD_PID == pid: it stops (and main returns 0)
   * as soon as DONE is seen at the top; it runs iterations while the schedule lasts.
   */
  function RunEvents(done: bool, pid: int, rounds: seq<Round>): (run: RunResult)
    decreases |rounds|
  {
    if done then RunResult([Exit(EXIT_SUCCESS)], Exited(EXIT_SUCCESS), 0)
    else if rounds == [] then RunResult([], Looping, 0)
    else
      var r := rounds[0];
      if IterationFate(r) != Looping then RunResult(IterationEvents(pid, r), IterationFate(r), 1)
      else
        var rest := RunEvents(AnyStop(Delivered(pid, r)), PidAfter(pid, r), rounds[1..]);
        RunResult(IterationEvents(pid, r) + rest.events, rest.fate, rest.used + 1)
  }

  // ---------------------------------------------------------------------------------------
  // Laws of the trace language

  lemma Snoc<T>(t: seq<T>, e: T)
    ensures Init(t + [e]) == t && Last(t + [e]) == e
  {
  }

  /** The handler's runs are invisible to the main loop's history. */
  lemma {:induction false} MainEventsAppend(a: seq<Event>, b: seq<Event>)
    ensures MainEvents(a + b) == MainEvents(a) + MainEvents(b)
    decreases |b|
  {
    if b == [] {
      assert a + b == a;
    } else {
      MainEventsAppend(a, Init(b));
      assert a + b == (a + Init(b)) + [Last(b)];
      Snoc(a + Init(b), Last(b));
    }
  }

  /** A burst of signals adds no main-loop event. */
  lemma {:induction false} MainEventsOfHandlers(signals: seq<int>, pid: int)
    ensures MainEvents(HandlerTrace(signals, pid)) == []
    decreases |signals|
  {
    if signals != [] {
      MainEventsOfHandlers(Init(signals), pid);
      Snoc(HandlerTrace(Init(signals), pid), HandlerEvent(Last(signals), pid));
    }
  }

  /**
   * Ordering law of one iteration: with the handler's runs left out, a successful probe is
   * followed directly by the 300 s sleep; a failed one by the stop of the recorded child
   * (SIGTERM, grace sleep, SIGKILL to the same pid), then the fork, then (in the parent) the
   * sleep.
   */
  lemma IterationMainEvents(pid: int, r: Round)
    ensures MainEvents(IterationEvents(pid, r)) ==
      [Probe(r.probeStatus)] +
      if r.probeStatus == EXIT_SUCCESS then [Sleep(PROBE_INTERVAL)]
      else
        (if pid == NO_CHILD then [] else [Kill(pid, SIGTERM), Sleep(GRACE_PERIOD), Kill(pid, SIGKILL)]) +
        SpawnEvents(r.forkResult, r.execOk) +
        (if r.forkResult > 0 then [Sleep(PROBE_INTERVAL)] else [])
  {
    var head := [Probe(r.probeStatus)] + HandlerTrace(r.duringProbe, pid);
    MainOfEventThenHandlers(Probe(r.probeStatus), r.duringProbe, pid);
    MainEventsAppend(head, IterationTail(pid, r));
    MainOfIterationTail(pid, r);
  }

  lemma MainOfIterationTail(pid: int, r: Round)
    ensures MainEvents(IterationTail(pid, r)) ==
      if r.probeStatus == EXIT_SUCCESS then [Sleep(PROBE_INTERVAL)]
      else
        (if pid == NO_CHILD then [] else [Kill(pid, SIGTERM), Sleep(GRACE_PERIOD), Kill(pid, SIGKILL)]) +
        SpawnEvents(r.forkResult, r.execOk) +
        (if r.forkResult > 0 then [Sleep(PROBE_INTERVAL)] else [])
  {
    if r.probeStatus == EXIT_SUCCESS {
      MainOfEventThenHandlers(Sleep(PROBE_INTERVAL), r.duringSleep, pid);
    } else {
      var stop := StaleStopEvents(pid, r.duringGrace);
      var spawn := SpawnEvents(r.forkResult, r.execOk);
      var rest := if SpawnFate(r.forkResult, r.execOk) == Looping then
        [Sleep(PROBE_INTERVAL)] + HandlerTrace(r.duringSleep, r.forkResult) else [];
      MainOfStaleStop(pid, r.duringGrace);
      MainNoHandlers(spawn);
      if SpawnFate(r.forkResult, r.execOk) == Looping {
        MainOfEventThenHandlers(Sleep(PROBE_INTERVAL), r.duringSleep, r.forkResult);
      }
      MainEventsAppend(stop, spawn);
      MainEventsAppend(stop + spawn, rest);
    }
  }

  /** One main-loop event followed by a burst of signals. */
  lemma MainOfEventThenHandlers(e: Event, signals: seq<int>, pid: int)
    requires !e.Handled?
    ensures MainEvents([e] + HandlerTrace(signals, pid)) == [e]
  {
    MainEventsOfHandlers(signals, pid);
    MainEventsAppend([e], HandlerTrace(signals, pid));
    Snoc([], e);
  }

  /** The main-loop part of stopping a stale child is SIGTERM, the grace sleep, SIGKILL. */
  lemma MainOfStaleStop(pid: int, graceSignals: seq<int>)
    ensures MainEvents(StaleStopEvents(pid, graceSignals)) ==
      if pid == NO_CHILD then [] else [Kill(pid, SIGTERM), Sleep(GRACE_PERIOD), Kill(pid, SIGKILL)]
  {
    if pid != NO_CHILD {
      var grace := HandlerTrace(graceSignals, pid);
      var pre := [Kill(pid, SIGTERM), Sleep(GRACE_PERIOD)];
      MainEventsOfHandlers(graceSignals, pid);
      MainEventsAppend(pre, grace);
      MainEventsAppend(pre + grace, [Kill(pid, SIGKILL)]);
      MainNoHandlers(pre);
      MainNoHandlers([Kill(pid, SIGKILL)]);
    }
  }

  /** A sequence without handler runs is its own main-loop history. */
  lemma {:induction false} MainNoHandlers(t: seq<Event>)
    requires forall i :: 0 <= i < |t| ==> !t[i].Handled?
    ensures MainEvents(t) == t
    decreases |t|
  {
    if t != [] {
      var s := Init(t);
      assert forall i :: 0 <= i < |s| ==> !s[i].Handled? by {
        forall i | 0 <= i < |s| ensures !s[i].Handled? {
          assert s[i] == t[i];
        }
      }
      MainNoHandlers(s);
      assert !t[|t| - 1].Handled?;
      assert s + [Last(t)] == t;
    }
  }

  /** DONE is monotone: once a stop signal is handled it stays requested. */
  lemma {:induction false} StopPersists(t: seq<Event>, u: seq<Event>)
    requires StopRequested(t)
    ensures StopRequested(t + u)
    decreases |u|
  {
    if u == [] {
      assert t + u == t;
    } else {
      StopPersists(t, Init(u));
      assert t + u == (t + Init(u)) + [Last(u)];
      Snoc(t + Init(u), Last(u));
    }
  }

  /** Some signal of a + b is a stop signal exactly when one of a or of b is. */
  lemma AnyStopAppend(a: seq<int>, b: seq<int>)
    ensures AnyStop(a + b) <==> AnyStop(a) || AnyStop(b)
  {
    if AnyStop(a + b) {
      var i :| 0 <= i < |a + b| && IsStopSignal((a + b)[i]);
      if i >= |a| {
        assert b[i - |a|] == (a + b)[i];
      }
    }
    if AnyStop(a) {
      var i :| 0 <= i < |a| && IsStopSignal(a[i]);
      assert (a + b)[i] == a[i];
    }
    if AnyStop(b) {
      var i :| 0 <= i < |b| && IsStopSignal(b[i]);
      assert (a + b)[|a| + i] == b[i];
    }
  }

  /** A burst of signals requests a stop exactly when one of them is SIGTERM or SIGINT. */
  lemma {:induction false} HandlersRequestStop(t: seq<Event>, signals: seq<int>, pid: int)
    ensures StopRequested(t + HandlerTrace(signals, pid)) <==> StopRequested(t) || AnyStop(signals)
    decreases |signals|
  {
    if signals == [] {
      assert t + HandlerTrace(signals, pid) == t;
    } else {
      var s := Last(signals);
      HandlersRequestStop(t, Init(signals), pid);
      assert t + HandlerTrace(signals, pid) == (t + HandlerTrace(Init(signals), pid)) + [HandlerEvent(s, pid)];
      Snoc(t + HandlerTrace(Init(signals), pid), HandlerEvent(s, pid));
      if AnyStop(Init(signals)) {
        var i :| 0 <= i < |Init(signals)| && IsStopSignal(Init(signals)[i]);
        assert signals[i] == Init(signals)[i];
      }
      if AnyStop(signals) && !IsStopSignal(s) {
        var i :| 0 <= i < |signals| && IsStopSignal(signals[i]);
        assert Init(signals)[i] == signals[i];
      }
      assert IsStopSignal(s) ==> signals[|signals| - 1] == s;
    }
  }

  /** Every event of a well-supervised trace was allowed after the events before it. */
  lemma {:induction false} EventAllowedAt(t: seq<Event>, k: int)
    requires WellSupervised(t) && 0 <= k < |t|
    ensures EventAllowed(t[..k], t[k])
    decreases |t|
  {
    if k < |t| - 1 {
      EventAllowedAt(Init(t), k);
      assert Init(t)[..k] == t[..k];
    }
  }

  /** If the slot differs between two points, some event between changed it. */
  lemma {:induction false} SlotFirstChange(t: seq<Event>, a: int, b: int)
    requires 0 <= a <= b <= |t|
    requires Slot(t[..a]) != Slot(t[..b])
    ensures exists k :: a <= k < b && Slot(t[..k]) == Slot(t[..a]) && ChangesSlot(t[k])
    decreases b
  {
    Snoc(t[..b - 1], t[b - 1]);
    assert t[..b - 1] + [t[b - 1]] == t[..b];
    if Slot(t[..b - 1]) != Slot(t[..a]) {
      SlotFirstChange(t, a, b - 1);
    }
  }

  /** What the trace language demands of the event at index k, one fact per kind of event. */
  lemma AllowedAt(t: seq<Event>, k: int)
    requires WellSupervised(t) && 0 <= k < |t|
    ensures t[k].Fork? ==> Slot(t[..k]) == NO_CHILD
    ensures t[k].Kill? ==> t[k].pid == Slot(t[..k]) && t[k].pid != NO_CHILD
    ensures t[k].Kill? && t[k].sig == SIGKILL ==> GraceBefore(t[..k], t[k].pid)
    ensures t[k].Probe? ==> !StopRequested(t[..k])
    ensures t[k] == Exit(EXIT_SUCCESS) ==> StopRequested(t[..k])
  {
    EventAllowedAt(t, k);
  }

  /** The slot right after the event at index i, when that event is a fork. */
  lemma SlotAfterFork(t: seq<Event>, i: int)
    requires 0 <= i < |t| && t[i].Fork?
    ensures Slot(t[..i + 1]) == t[i].result
  {
    Snoc(t[..i], t[i]);
    assert t[..i] + [t[i]] == t[..i + 1];
  }

  /**
   * At most one recorded child: a dialer forked in the parent (a positive pid) is sent
   * SIGKILL before the watchdog forks again.
   */
  lemma NoForkWhileChildRecorded(t: seq<Event>, i: int, j: int)
    requires WellSupervised(t)
    requires 0 <= i < j < |t| && t[i].Fork? && t[i].result > 0 && t[j].Fork?
    ensures exists k :: i < k < j && t[k] == Kill(t[i].result, SIGKILL)
  {
    var r := t[i].result;
    SlotAfterFork(t, i);
    AllowedAt(t, j);
    SlotFirstChange(t, i + 1, j);
    var k :| i + 1 <= k < j && Slot(t[..k]) == r && ChangesSlot(t[k]);
    AllowedAt(t, k);
    assert t[k] == Kill(r, SIGKILL);
  }

  /** The index of the last main-loop event of t, with only runs of the handler after it. */
  lemma {:induction false} LastMainIndex(t: seq<Event>) returns (i: int)
    requires MainEvents(t) != []
    ensures 0 <= i < |t| && t[i] == Last(MainEvents(t))
    ensures MainEvents(t[..i]) == Init(MainEvents(t))
    ensures forall n :: i < n < |t| ==> t[n].Handled?
    decreases |t|
  {
    if Last(t).Handled? {
      i := LastMainIndex(Init(t));
      assert Init(t)[i] == t[i];
      assert Init(t)[..i] == t[..i];
      forall n | i < n < |t|
        ensures t[n].Handled?
      {
        if n < |t| - 1 {
          assert Init(t)[n] == t[n];
        }
      }
    } else {
      i := |t| - 1;
      assert t[..|t| - 1] == Init(t);
      Snoc(MainEvents(Init(t)), Last(t));
    }
  }

  /**
   * Grace-period law: every SIGKILL of the main loop is preceded by SIGTERM to the same pid
   * and then the grace sleep, with at most runs of the handler in between.
   */
  lemma GraceLaw(t: seq<Event>, k: int)
    requires WellSupervised(t) && 0 <= k < |t| && t[k].Kill? && t[k].sig == SIGKILL
    ensures exists i, j :: (0 <= i < j < k && t[i] == Kill(t[k].pid, SIGTERM) &&
      t[j] == Sleep(GRACE_PERIOD) &&
      forall n :: i < n < k && n != j ==> t[n].Handled?)
  {
    AllowedAt(t, k);
    var p := t[k].pid;
    var m := MainEvents(t[..k]);
    var j := LastMainIndex(t[..k]);
    assert t[j] == t[..k][j] == Sleep(GRACE_PERIOD);
    assert MainEvents(t[..k][..j]) == Init(m);
    assert t[..k][..j] == t[..j];
    var i := LastMainIndex(t[..j]);
    assert t[i] == t[..j][i] == Last(Init(m)) == Kill(p, SIGTERM);
    forall n | i < n < k && n != j
      ensures t[n].Handled?
    {
      if n < j {
        assert t[..j][n] == t[n];
      } else {
        assert t[..k][n] == t[n];
      }
    }
  }

  /** After a stop signal has been handled the loop never probes again. */
  lemma NoProbeAfterStop(t: seq<Event>, i: int, j: int)
    requires WellSupervised(t)
    requires 0 <= i < j < |t| && t[i].Handled? && IsStopSignal(t[i].signo)
    ensures !t[j].Probe?
  {
    Snoc(t[..i], t[i]);
    assert t[..i] + [t[i]] == t[..i + 1];
    assert StopRequested(t[..i + 1]);
    StopPersists(t[..i + 1], t[i + 1..j]);
    assert t[..i + 1] + t[i + 1..j] == t[..j];
    AllowedAt(t, j);
  }

  /** The watchdog exits with status 0 only after a stop signal has been handled. */
  lemma SuccessOnlyAfterStop(t: seq<Event>, k: int)
    requires WellSupervised(t) && 0 <= k < |t| && t[k] == Exit(EXIT_SUCCESS)
    ensures exists i :: 0 <= i < k && t[i].Handled? && IsStopSignal(t[i].signo)
  {
    AllowedAt(t, k);
    StopWitness(t[..k]);
    var i :| 0 <= i < k && t[..k][i].Handled? && IsStopSignal(t[..k][i].signo);
    assert t[..k][i] == t[i];
  }

  lemma {:induction false} StopWitness(t: seq<Event>)
    requires StopRequested(t)
    ensures exists i :: 0 <= i < |t| && t[i].Handled? && IsStopSignal(t[i].signo)
    decreases |t|
  {
    if !(Last(t).Handled? && IsStopSignal(Last(t).signo)) {
      StopWitness(Init(t));
      var i :| 0 <= i < |Init(t)| && Init(t)[i].Handled? && IsStopSignal(Init(t)[i].signo);
      assert t[i] == Init(t)[i];
    }
  }

  // ---------------------------------------------------------------------------------------
  // Whole runs of the loop

  /** A burst of signals neither kills nor forks. */
  lemma {:induction false} HandlersOnly(signals: seq<int>, pid: int)
    ensures forall i :: 0 <= i < |HandlerTrace(signals, pid)| ==> HandlerTrace(signals, pid)[i].Handled?
    decreases |signals|
  {
    if signals != [] {
      HandlersOnly(Init(signals), pid);
    }
  }

  /**
   * While every probe succeeds the watchdog never kills and never forks; the run ends only
   * when DONE is seen (main returns 0) or keeps looping.
   */
  lemma {:induction false} HealthyLinkNeverSpawns(done: bool, pid: int, rounds: seq<Round>)
    requires forall k :: 0 <= k < |rounds| ==> rounds[k].probeStatus == EXIT_SUCCESS
    ensures var res := RunEvents(done, pid, rounds);
      (res.fate == Looping || res.fate == Exited(EXIT_SUCCESS)) &&
      forall i :: 0 <= i < |res.events| ==> !res.events[i].Fork? && !res.events[i].Kill?
    decreases |rounds|
  {
    if !done && rounds != [] {
      var r := rounds[0];
      HealthyLinkNeverSpawns(AnyStop(Delivered(pid, r)), PidAfter(pid, r), rounds[1..]);
      HandlersOnly(r.duringProbe, pid);
      HandlersOnly(r.duringSleep, pid);
      var events := IterationEvents(pid, r);
      assert events == [Probe(r.probeStatus)] + HandlerTrace(r.duringProbe, pid) +
        ([Sleep(PROBE_INTERVAL)] + HandlerTrace(r.duringSleep, pid));
      assert forall i :: 0 <= i < |events| ==> !events[i].Fork? && !events[i].Kill?;
    }
  }

  /** A failed fork ends the watchdog with EXIT_FAILURE; nothing is probed after it. */
  lemma ForkFailureIsFatal(pid: int, r: Round, later: seq<Round>)
    requires r.probeStatus != EXIT_SUCCESS && r.forkResult < 0
    ensures var res := RunEvents(false, pid, [r] + later);
      res.fate == Exited(EXIT_FAILURE) && res.used == 1 &&
      res.events[|res.events| - 1] == Exit(EXIT_FAILURE) &&
      forall i :: 1 <= i < |res.events| ==> !res.events[i].Probe?
  {
    var stop := StaleStopEvents(pid, r.duringGrace);
    var events := IterationEvents(pid, r);
    HandlersOnly(r.duringProbe, pid);
    HandlersOnly(r.duringGrace, pid);
    assert ([r] + later)[0] == r;
    assert events == [Probe(r.probeStatus)] + HandlerTrace(r.duringProbe, pid) + stop +
      [Fork(r.forkResult), Exit(EXIT_FAILURE)];
  }

  /**
   * Two failed probes in a row (no signals): the first forks dialer 100; the second stops it
   * with SIGTERM, the grace sleep and SIGKILL before forking dialer 200.
   */
  lemma TwoFailuresRestartDialer()
    ensures RunEvents(false, NO_CHILD, [Round(1, [], [], 100, true, []), Round(1, [], [], 200, true, [])]) ==
      RunResult([Probe(1), Fork(100), Sleep(PROBE_INTERVAL),
                 Probe(1), Kill(100, SIGTERM), Sleep(GRACE_PERIOD), Kill(100, SIGKILL), Fork(200),
                 Sleep(PROBE_INTERVAL)], Looping, 2)
  {
    var rounds := [Round(1, [], [], 100, true, []), Round(1, [], [], 200, true, [])];
    assert IterationEvents(NO_CHILD, rounds[0]) == [Probe(1), Fork(100), Sleep(PROBE_INTERVAL)];
    assert IterationEvents(100, rounds[1]) ==
      [Probe(1), Kill(100, SIGTERM), Sleep(GRACE_PERIOD), Kill(100, SIGKILL), Fork(200), Sleep(PROBE_INTERVAL)];
    assert !AnyStop(Delivered(NO_CHILD, rounds[0]));
    assert !AnyStop(Delivered(100, rounds[1]));
    assert rounds[1..][1..] == [];
  }

  /**
   * SIGTERM during the sleep with dialer 100 recorded: the handler forwards SIGTERM to it,
   * and the loop stops without probing again; main returns 0.
   */
  lemma ShutdownForwardsToDialer()
    ensures RunEvents(false, 100, [Round(0, [], [], 0, false, [SIGTERM]), Round(0, [], [], 0, false, [])]) ==
      RunResult([Probe(0), Sleep(PROBE_INTERVAL), Handled(SIGTERM, Some(100)), Exit(EXIT_SUCCESS)],
                Exited(EXIT_SUCCESS), 1)
  {
    var rounds := [Round(0, [], [], 0, false, [SIGTERM]), Round(0, [], [], 0, false, [])];
    assert HandlerTrace([SIGTERM], 100) == [Handled(SIGTERM, Some(100))];
    assert IterationEvents(100, rounds[0]) == [Probe(0), Sleep(PROBE_INTERVAL), Handled(SIGTERM, Some(100))];
    assert Delivered(100, rounds[0]) == [SIGTERM];
    assert AnyStop([SIGTERM]) by {
      assert IsStopSignal([SIGTERM][0]);
    }
  }

  /**
   * SIGTERM while a failing probe runs does not cut the iteration short: dialer 100 is
   * stopped, dialer 200 is forked, and the loop then stops with main returning 0, leaving 200
   * running without ever sending it SIGTERM.
   */
  lemma StopDuringProbeStillSpawns()
    ensures RunEvents(false, 100, [Round(1, [SIGTERM], [], 200, true, [])]) ==
      RunResult([Probe(1), Handled(SIGTERM, Some(100)), Kill(100, SIGTERM), Sleep(GRACE_PERIOD),
                 Kill(100, SIGKILL), Fork(200), Sleep(PROBE_INTERVAL), Exit(EXIT_SUCCESS)],
                Exited(EXIT_SUCCESS), 1)
  {
    var r := Round(1, [SIGTERM], [], 200, true, []);
    assert HandlerTrace([SIGTERM], 100) == [Handled(SIGTERM, Some(100))];
    assert IterationEvents(100, r) == [Probe(1), Handled(SIGTERM, Some(100)), Kill(100, SIGTERM),
      Sleep(GRACE_PERIOD), Kill(100, SIGKILL), Fork(200), Sleep(PROBE_INTERVAL)];
    assert Delivered(100, r) == [SIGTERM];
    assert AnyStop([SIGTERM]) by {
      assert IsStopSignal([SIGTERM][0]);
    }
  }
}
