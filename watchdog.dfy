/**
 * The mobileconnd process (mobileconnd.c): the globals DONE and CHILD_PID become the fields
 * of a Watchdog object, the signal handler `terminate` and the steps of the `while(!DONE)`
 * loop become its methods.  The environment (the probe's exit status, what fork returns,
 * whether execlp works, which signals arrive and when) is given as parameters; every system
 * call is appended to the ghost trace, and Valid() ties the fields to the trace and keeps the
 * trace in the language WellSupervised of module SupervisorTrace.
 *
 * The handler may run between the steps: while the probe runs, during the grace period and
 * during the 300 s sleep.
 */
module Mobileconnd {
  import opened Wrappers
  import opened SupervisorTrace

  class Watchdog {
    /** DONE: set by the handler on SIGTERM or SIGINT, tested at the top of the loop. */
    var done: bool
    /** CHILD_PID: the dialer started last, or NO_CHILD. */
    var childPid: int
    /** Every side effect of this process so far, in order. */
    ghost var trace: seq<Event>

    ghost predicate Valid()
      reads this
    {
      WellSupervised(trace) &&
      (done <==> StopRequested(trace)) &&
      childPid == Slot(trace)
    }

    /** The globals' initial values: DONE = 0 and CHILD_PID = -1. */
    constructor ()
      ensures Valid() && AtLoopTop(trace)
      ensures !done && childPid == NO_CHILD && trace == []
    {
      done := false;
      childPid := NO_CHILD;
      trace := [];
    }

    /**
     * The handler `terminate(signo)`: on SIGTERM or SIGINT it sets DONE and sends SIGTERM to
     * whatever CHILD_PID holds (NO_CHILD included); any other signal changes nothing.
     */
    method Terminate(signo: int)
      requires Valid()
      modifies this`done, this`trace
      ensures Valid()
      ensures done == (old(done) || IsStopSignal(signo))
      ensures trace == old(trace) + [HandlerEvent(signo, childPid)]
      ensures MainEvents(trace) == MainEvents(old(trace))
    {
      Snoc(trace, HandlerEvent(signo, childPid));
      if signo == SIGTERM || signo == SIGINT {
        done := true;
        trace := trace + [Handled(signo, Some(childPid))];
      } else {
        trace := trace + [Handled(signo, None)];
      }
    }

    /** The handler runs once for each of signals, in order. */
    method DeliverAll(signals: seq<int>)
      requires Valid()
      modifies this`done, this`trace
      ensures Valid()
      ensures done == (old(done) || AnyStop(signals))
      ensures trace == old(trace) + HandlerTrace(signals, childPid)
      ensures MainEvents(trace) == MainEvents(old(trace))
    {
      for i := 0 to |signals|
        invariant Valid()
        invariant done == (old(done) || AnyStop(signals[..i]))
        invariant trace == old(trace) + HandlerTrace(signals[..i], childPid)
        invariant MainEvents(trace) == MainEvents(old(trace))
      {
        Terminate(signals[i]);
        HandlerPrefixStep(old(trace), signals, i, childPid);
      }
      assert signals[..|signals|] == signals;
    }

    /** system("ping ...") returned status; the loop only gets here while DONE is clear. */
    method RunProbe(status: int)
      requires Valid() && !done && AtLoopTop(trace)
      modifies this`trace
      ensures Valid()
      ensures trace == old(trace) + [Probe(status)]
      ensures LastMain(trace) == Some(Probe(status))
    {
      Record(Probe(status));
    }

    /**
     * After a failed probe, a recorded child is sent SIGTERM, given the grace period (during
     * which signals may arrive) and sent SIGKILL, and the slot is cleared.
     */
    method StopStaleChild(graceSignals: seq<int>)
      requires Valid() && LastMain(trace).Some? && IsFailedProbe(LastMain(trace).value)
      modifies this
      ensures Valid()
      ensures childPid == NO_CHILD
      ensures done == (old(done) || (old(childPid) != NO_CHILD && AnyStop(graceSignals)))
      ensures trace == old(trace) + StaleStopEvents(old(childPid), graceSignals)
      ensures old(childPid) == NO_CHILD ==> LastMain(trace) == LastMain(old(trace))
      ensures old(childPid) != NO_CHILD ==> LastMain(trace) == Some(Kill(old(childPid), SIGKILL))
    {
      if childPid != NO_CHILD {
        ghost var t0 := trace;
        Warn();
        DeliverAll(graceSignals);
        ForceKill();
        assert trace == t0 + ([Kill(old(childPid), SIGTERM), Sleep(GRACE_PERIOD)] +
          HandlerTrace(graceSignals, old(childPid)) + [Kill(old(childPid), SIGKILL)]);
      }
    }

    /** kill(CHILD_PID, SIGTERM) after a failed probe, then the grace period sleep(5). */
    method Warn()
      requires Valid() && childPid != NO_CHILD
      requires LastMain(trace).Some? && IsFailedProbe(LastMain(trace).value)
      modifies this`trace
      ensures Valid() && GraceBefore(trace, childPid)
      ensures trace == old(trace) + [Kill(childPid, SIGTERM), Sleep(GRACE_PERIOD)]
    {
      Record(Kill(childPid, SIGTERM));
      Record(Sleep(GRACE_PERIOD));
      MainEventsAppend(old(trace), [Kill(childPid, SIGTERM), Sleep(GRACE_PERIOD)]);
      MainNoHandlers([Kill(childPid, SIGTERM), Sleep(GRACE_PERIOD)]);
    }

    /** After the grace period: kill(CHILD_PID, SIGKILL) and CHILD_PID = -1. */
    method ForceKill()
      requires Valid() && childPid != NO_CHILD && GraceBefore(trace, childPid)
      modifies this`trace, this`childPid
      ensures Valid() && childPid == NO_CHILD
      ensures trace == old(trace) + [Kill(old(childPid), SIGKILL)]
      ensures LastMain(trace) == Some(Kill(old(childPid), SIGKILL))
    {
      Record(Kill(childPid, SIGKILL));
      childPid := NO_CHILD;
    }

    /**
     * `CHILD_PID = fork()` and what this process does next: on failure it exits with
     * EXIT_FAILURE; in the child it execs the dialer and, if that fails, _exits with
     * EXIT_FAILURE; in the parent it goes on with the new pid recorded.
     */
    method Spawn(forkResult: int, execOk: bool) returns (fate: Fate)
      requires Valid() && childPid == NO_CHILD
      requires LastMain(trace).Some?
      requires IsFailedProbe(LastMain(trace).value) ||
               (LastMain(trace).value.Kill? && LastMain(trace).value.sig == SIGKILL)
      modifies this`childPid, this`trace
      ensures Valid()
      ensures childPid == forkResult
      ensures trace == old(trace) + SpawnEvents(forkResult, execOk)
      ensures fate == SpawnFate(forkResult, execOk)
      ensures fate == Looping ==> LastMain(trace) == Some(Fork(forkResult))
    {
      Record(Fork(forkResult));
      childPid := forkResult;
      if childPid < 0 {
        Record(Exit(EXIT_FAILURE));
        fate := Exited(EXIT_FAILURE);
      } else if childPid == 0 {
        ghost var forked := trace;
        fate := ExecDialer(execOk);
        assert trace == old(trace) + ([Fork(forkResult)] + (trace[|forked|..]));
      } else {
        fate := Looping;
      }
    }

    /**
     * In the child: execlp the dialer script with its fixed argument vector; if that returns,
     * _exit(EXIT_FAILURE).
     */
    method ExecDialer(execOk: bool) returns (fate: Fate)
      requires Valid() && LastMain(trace) == Some(Fork(0))
      modifies this`trace
      ensures Valid()
      ensures old(trace) <= trace
      ensures trace[|old(trace)|..] == [Exec(DIAL_SCRIPT, DIAL_ARGV)] + (if execOk then [] else [Exit(EXIT_FAILURE)])
      ensures fate == (if execOk then BecameDialer else Exited(EXIT_FAILURE))
    {
      Record(Exec(DIAL_SCRIPT, DIAL_ARGV));
      if execOk {
        fate := BecameDialer;
      } else {
        Record(Exit(EXIT_FAILURE));
        fate := Exited(EXIT_FAILURE);
      }
    }

    /** sleep(60 * 5), during which signals may arrive. */
    method Pause(signals: seq<int>)
      requires Valid() && LastMain(trace).Some?
      requires LastMain(trace).value == Probe(EXIT_SUCCESS) ||
               (LastMain(trace).value.Fork? && LastMain(trace).value.result > 0)
      modifies this`done, this`trace
      ensures Valid() && AtLoopTop(trace)
      ensures childPid == old(childPid)
      ensures done == (old(done) || AnyStop(signals))
      ensures trace == old(trace) + [Sleep(PROBE_INTERVAL)] + HandlerTrace(signals, childPid)
    {
      Record(Sleep(PROBE_INTERVAL));
      DeliverAll(signals);
    }

    /**
     * The failed-probe branch of the loop body: stop the recorded child, if any, then fork a
     * new dialer.
     */
    method Redial(graceSignals: seq<int>, forkResult: int, execOk: bool) returns (fate: Fate)
      requires Valid() && LastMain(trace).Some? && IsFailedProbe(LastMain(trace).value)
      modifies this
      ensures Valid()
      ensures childPid == forkResult
      ensures done == (old(done) || (old(childPid) != NO_CHILD && AnyStop(graceSignals)))
      ensures trace == old(trace) + StaleStopEvents(old(childPid), graceSignals) + SpawnEvents(forkResult, execOk)
      ensures fate == SpawnFate(forkResult, execOk)
      ensures fate == Looping ==> LastMain(trace) == Some(Fork(forkResult))
    {
      StopStaleChild(graceSignals);
      fate := Spawn(forkResult, execOk);
    }

    /** One iteration of the while loop, entered with DONE clear. */
    method Iterate(r: Round) returns (fate: Fate)
      requires Valid() && !done && AtLoopTop(trace)
      modifies this
      ensures Valid()
      ensures trace == old(trace) + IterationEvents(old(childPid), r)
      ensures childPid == PidAfter(old(childPid), r)
      ensures done == AnyStop(Delivered(old(childPid), r))
      ensures fate == IterationFate(r) && fate != Exited(EXIT_SUCCESS)
      ensures fate == Looping ==> AtLoopTop(trace)
    {
      ghost var pid := childPid;
      DeliveredStop(pid, r);
      RunProbe(r.probeStatus);
      DeliverAll(r.duringProbe);
      ghost var head := trace;
      ghost var spawned := trace;
      fate := Looping;
      if r.probeStatus != EXIT_SUCCESS {
        fate := Redial(r.duringGrace, r.forkResult, r.execOk);
        spawned := trace;
        if fate != Looping {
          IterationTrace(old(trace), head, spawned, trace, pid, r);
          return;
        }
      }
      Pause(r.duringSleep);
      IterationTrace(old(trace), head, spawned, trace, pid, r);
    }

    /**
     * The while(!DONE) loop over a schedule of rounds.  It ends when DONE is seen at the top
     * (main returns 0), when this process exits or becomes the dialer, or, with DONE still
     * clear, when the schedule runs out; used is the number of rounds run.
     */
    method Run(rounds: seq<Round>) returns (fate: Fate, used: nat)
      requires Valid() && AtLoopTop(trace)
      modifies this
      ensures Valid()
      ensures old(trace) <= trace
      ensures RunEvents(old(done), old(childPid), rounds) == RunResult(trace[|old(trace)|..], fate, used)
      ensures used <= |rounds|
      ensures fate == Looping ==> !done && used == |rounds| && AtLoopTop(trace)
      ensures fate == Exited(EXIT_SUCCESS) ==> done && trace[|trace| - 1] == Exit(EXIT_SUCCESS)
    {
      ghost var total := RunEvents(done, childPid, rounds);
      ghost var t0 := trace;
      ghost var acc;
      fate, used, acc := Loop(rounds, total);
      if fate == Looping && done {
        fate := Finish();
        AppendAssoc(t0, acc, [Exit(EXIT_SUCCESS)]);
        acc := acc + [Exit(EXIT_SUCCESS)];
      }
      DropPrefix(t0, acc);
    }

    /**
     * The iterations of the while loop: they go on while DONE is clear and rounds remain,
     * unless an iteration ends this process. acc is what they record; when they stop with
     * DONE set, what remains of the run is main returning 0.
     */
    method Loop(rounds: seq<Round>, ghost total: RunResult) returns (fate: Fate, used: nat, ghost acc: seq<Event>)
      requires Valid() && AtLoopTop(trace) && total == RunEvents(done, childPid, rounds)
      modifies this
      ensures Valid() && used <= |rounds| && trace == old(trace) + acc
      ensures fate != Looping ==> total == RunResult(acc, fate, used) && fate != Exited(EXIT_SUCCESS)
      ensures fate == Looping && done ==>
        AtLoopTop(trace) && total == RunResult(acc + [Exit(EXIT_SUCCESS)], Exited(EXIT_SUCCESS), used)
      ensures fate == Looping && !done ==> AtLoopTop(trace) && used == |rounds| && total == RunResult(acc, Looping, used)
    {
      fate, used, acc := Looping, 0, [];
      while !done && used < |rounds|
        invariant Valid() && AtLoopTop(trace) && fate == Looping
        invariant used <= |rounds| && trace == old(trace) + acc
        invariant Agrees(total, acc, done, childPid, rounds[used..], used)
        decreases |rounds| - used
      {
        ghost var pid := childPid;
        var r := rounds[used];
        fate := Iterate(r);
        ghost var events := IterationEvents(pid, r);
        RunLoopStep(total, acc, pid, rounds, used, done, childPid, fate);
        AppendAssoc(old(trace), acc, events);
        acc := acc + events;
        used := used + 1;
        if fate != Looping {
          return;
        }
      }
      if done {
        RunLoopDone(total, acc, rounds[used..], used, childPid);
      } else {
        RunLoopEnd(total, acc, rounds[used..], used, childPid);
      }
    }

    /** DONE seen at the top of the loop: main returns 0. */
    method Finish() returns (fate: Fate)
      requires Valid() && done && AtLoopTop(trace)
      modifies this`trace
      ensures Valid() && done
      ensures trace == old(trace) + [Exit(EXIT_SUCCESS)] && trace[|trace| - 1] == Exit(EXIT_SUCCESS)
      ensures fate == Exited(EXIT_SUCCESS)
    {
      Record(Exit(EXIT_SUCCESS));
      fate := Exited(EXIT_SUCCESS);
    }

    /** Records a system call of the main loop that the trace language allows here. */
    ghost method Record(e: Event)
      requires WellSupervised(trace) && (done <==> StopRequested(trace))
      requires !e.Handled? && EventAllowed(trace, e)
      modifies this`trace
      ensures trace == old(trace) + [e]
      ensures WellSupervised(trace) && (done <==> StopRequested(trace))
      ensures Slot(trace) == match e
        case Fork(r) => r
        case Kill(_, sig) => if sig == SIGKILL then NO_CHILD else old(Slot(trace))
        case _ => old(Slot(trace))
      ensures MainEvents(trace) == MainEvents(old(trace)) + [e]
      ensures LastMain(trace) == Some(e)
    {
      Snoc(trace, e);
      trace := trace + [e];
    }
  }

  /** The stages of one iteration put together give IterationEvents. */
  lemma IterationTrace(t0: seq<Event>, head: seq<Event>, spawned: seq<Event>, t1: seq<Event>, pid: int, r: Round)
    requires head == t0 + [Probe(r.probeStatus)] + HandlerTrace(r.duringProbe, pid)
    requires r.probeStatus == EXIT_SUCCESS ==>
      spawned == head && t1 == head + [Sleep(PROBE_INTERVAL)] + HandlerTrace(r.duringSleep, pid)
    requires r.probeStatus != EXIT_SUCCESS ==>
      spawned == head + StaleStopEvents(pid, r.duringGrace) + SpawnEvents(r.forkResult, r.execOk) &&
      (SpawnFate(r.forkResult, r.execOk) != Looping ==> t1 == spawned) &&
      (SpawnFate(r.forkResult, r.execOk) == Looping ==>
        t1 == spawned + [Sleep(PROBE_INTERVAL)] + HandlerTrace(r.duringSleep, r.forkResult))
    ensures t1 == t0 + IterationEvents(pid, r)
  {
    var probe := [Probe(r.probeStatus)] + HandlerTrace(r.duringProbe, pid);
    var tail := IterationTail(pid, r);
    assert IterationEvents(pid, r) == probe + tail;
    AppendAssoc(t0, [Probe(r.probeStatus)], HandlerTrace(r.duringProbe, pid));
    assert head == t0 + probe;
    AppendAssoc(t0, probe, tail);
    if r.probeStatus == EXIT_SUCCESS {
      var sleep := [Sleep(PROBE_INTERVAL)];
      var after := HandlerTrace(r.duringSleep, pid);
      assert tail == sleep + after;
      AppendAssoc(head, sleep, after);
    } else {
      var stop := StaleStopEvents(pid, r.duringGrace);
      var spawn := SpawnEvents(r.forkResult, r.execOk);
      AppendAssoc(head, stop, spawn);
      if SpawnFate(r.forkResult, r.execOk) == Looping {
        var sleep := [Sleep(PROBE_INTERVAL)];
        var after := HandlerTrace(r.duringSleep, r.forkResult);
        assert tail == (stop + spawn) + (sleep + after);
        AppendAssoc(spawned, sleep, after);
        AppendAssoc(head, stop + spawn, sleep + after);
      } else {
        assert tail == (stop + spawn) + [];
        assert tail == stop + spawn;
      }
    }
  }

  /** The iteration's signals hold a stop signal exactly when one of its three bursts does. */
  lemma DeliveredStop(pid: int, r: Round)
    ensures AnyStop(Delivered(pid, r)) <==>
      AnyStop(r.duringProbe) ||
      (r.probeStatus != EXIT_SUCCESS && pid != NO_CHILD && AnyStop(r.duringGrace)) ||
      (IterationFate(r) == Looping && AnyStop(r.duringSleep))
  {
    var grace := if r.probeStatus != EXIT_SUCCESS && pid != NO_CHILD then r.duringGrace else [];
    var sleep := if IterationFate(r) == Looping then r.duringSleep else [];
    AnyStopAppend(r.duringProbe, grace);
    AnyStopAppend(r.duringProbe + grace, sleep);
    assert !AnyStop([]);
  }

  /** The handler's run for signals[i] extends the runs for the signals before it. */
  lemma HandlerPrefixStep(t0: seq<Event>, signals: seq<int>, i: int, pid: int)
    requires 0 <= i < |signals|
    ensures t0 + HandlerTrace(signals[..i + 1], pid) ==
      t0 + HandlerTrace(signals[..i], pid) + [HandlerEvent(signals[i], pid)]
    ensures AnyStop(signals[..i + 1]) <==> AnyStop(signals[..i]) || IsStopSignal(signals[i])
  {
    assert signals[..i + 1] == signals[..i] + [signals[i]];
    Snoc(signals[..i], signals[i]);
    AnyStopAppend(signals[..i], [signals[i]]);
    assert AnyStop([signals[i]]) <==> IsStopSignal([signals[i]][0]);
  }

  /** One unfolding of RunEvents at round i, with DONE clear. */
  lemma RunStep(pid: int, rounds: seq<Round>, i: int)
    requires 0 <= i < |rounds|
    ensures var r := rounds[i];
      RunEvents(false, pid, rounds[i..]) ==
        if IterationFate(r) != Looping then RunResult(IterationEvents(pid, r), IterationFate(r), 1)
        else
          var rest := RunEvents(AnyStop(Delivered(pid, r)), PidAfter(pid, r), rounds[i + 1..]);
          RunResult(IterationEvents(pid, r) + rest.events, rest.fate, rest.used + 1)
  {
    assert rounds[i..][0] == rounds[i] && rounds[i..][1..] == rounds[i + 1..];
  }

  lemma AppendAssoc(a: seq<Event>, b: seq<Event>, c: seq<Event>)
    ensures a + b + c == a + (b + c)
  {
  }

  lemma DropPrefix(a: seq<Event>, b: seq<Event>)
    ensures a <= a + b && (a + b)[|a|..] == b
  {
  }

  /**
   * The loop invariant of Run: the whole run's result is what has been recorded so far
   * followed by the result of the loop over the remaining rounds.
   */
  ghost predicate Agrees(total: RunResult, acc: seq<Event>, done: bool, pid: int, rest: seq<Round>, used: nat)
  {
    var tail := RunEvents(done, pid, rest);
    total == RunResult(acc + tail.events, tail.fate, tail.used + used)
  }

  /** One iteration of Run's loop carries Agrees over, or ends the run with its fate. */
  lemma RunLoopStep(total: RunResult, acc: seq<Event>, pid: int, rounds: seq<Round>, used: nat,
                    done: bool, pidAfter: int, fate: Fate)
    requires used < |rounds| && Agrees(total, acc, false, pid, rounds[used..], used)
    requires done == AnyStop(Delivered(pid, rounds[used]))
    requires pidAfter == PidAfter(pid, rounds[used]) && fate == IterationFate(rounds[used])
    ensures fate != Looping ==> total == RunResult(acc + IterationEvents(pid, rounds[used]), fate, used + 1)
    ensures fate == Looping ==>
      Agrees(total, acc + IterationEvents(pid, rounds[used]), done, pidAfter, rounds[used + 1..], used + 1)
  {
    RunStep(pid, rounds, used);
    var events := IterationEvents(pid, rounds[used]);
    if fate == Looping {
      var tail := RunEvents(done, pidAfter, rounds[used + 1..]);
      AppendAssoc(acc, events, tail.events);
    }
  }

  /** The loop ends with the schedule, DONE still clear: the run keeps looping. */
  lemma RunLoopEnd(total: RunResult, acc: seq<Event>, rest: seq<Round>, used: nat, pid: int)
    requires Agrees(total, acc, false, pid, rest, used) && rest == []
    ensures total == RunResult(acc, Looping, used)
  {
    assert acc + [] == acc;
  }

  /** The loop ends on DONE: main returns 0, and that is the last thing the run records. */
  lemma RunLoopDone(total: RunResult, acc: seq<Event>, rest: seq<Round>, used: nat, pid: int)
    requires Agrees(total, acc, true, pid, rest, used)
    ensures total == RunResult(acc + [Exit(EXIT_SUCCESS)], Exited(EXIT_SUCCESS), used)
  {
  }
}
