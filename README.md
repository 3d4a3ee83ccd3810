# mobileconnd / autowvdial in Dafny

A model of a small mobile-broadband keeper with two parts.

- **mobileconnd.c** is a watchdog daemon. Every five minutes it pings a host over `ppp0`.
  - When the ping fails, it stops the dialer it started last, if any. It sends SIGTERM, waits a 5 s grace period, then sends SIGKILL.
  - It then forks a new dialer, which execs `autowvdial /dev/gsmmodem 00000000 -d LTE -t 60`.
  - Its `terminate` handler sets `DONE` on SIGTERM or SIGINT and forwards SIGTERM to `CHILD_PID`. The loop ends when it sees `DONE`.
- **autowvdial.py** is the dialer script. The model covers three of its pieces:
  - the deadline predicate `timed_out`;
  - the loop of `enter_sim_pin`, which reads the modem's reply to `AT+CPIN` (section 8.3 of 3GPP TS 27.007) until a complete line arrives;
  - the `SystemdHandler`, which prefixes each log line with its syslog severity (section 6.2.1 of RFC 5424).

Files:

- `supervisor_trace.dfy` (module `SupervisorTrace`)
  - Holds the daemon's constants and its trace of events.
  - Each kind of event is one system call, or one run of the handler: `Handled(signo, forwardedTo)`.
  - `WellSupervised` is a trace language that contains every trace the daemon can produce. It is larger than that set, for example it also admits handler runs for signals other than SIGTERM and SIGINT. Each event must be allowed after the events before it.
  - `Slot(t)` is the value `CHILD_PID` has after trace `t`. `StopRequested(t)` is `DONE`.
  - `IterationEvents` and `RunEvents` say which trace one iteration, and a run of the loop, produces for a given environment.
  - The lemmas prove the daemon's invariants over every well-supervised trace.
- `watchdog.dfy` (module `Mobileconnd`)
  - Class `Watchdog` holds the two globals as fields `done` and `childPid`, plus a ghost `trace`.
  - `Terminate` is the handler. The steps of the loop body are methods, and so is the loop itself (`Run`, made of `Loop` and `Finish`).
  - The environment is a `Round` per iteration:
    - the probe's exit status;
    - the signals delivered during the probe, the grace sleep and the 300 s sleep;
    - what `fork` returns;
    - whether `execlp` succeeds.
  - Each method's new trace equals the old trace plus the specification's events, and it keeps `Valid()`.
  - So every reachable trace is well supervised, and the lemmas of `SupervisorTrace` apply to it.
- `crlf.dfy` (module `Crlf`)
  - Python's `s.split("\r\n")` and `"\r\n" in s`.
  - Proved: splitting is the unique decomposition into terminator-free pieces.
- `autowvdial.dfy` (module `AutoWvdial`)
  - `TimedOut`.
  - The SIM-PIN read step `ReadStep`, modelled as written.
  - Its loop `EnterSimPin`, proved against the specification `Attempt`.
- `systemd_log.dfy` (module `SystemdLog`)
  - The prefix table, the record format and `emit`.
  - The RFC 5424 severities, and a reader for the journal line.
- `wrappers.dfy` (module `Wrappers`): `Option`, `Last`, `Init`.

Two behaviours of the Python script are modelled as the code is written, not as its comments or the program's intent suggest:

- **Doubled buffer.** `buf += buf + chunk` (autowvdial.py:93) appends the old buffer a second time. An `OK` that arrives over two reads becomes `OOK`, and the PIN is reported as failed. `AutoWvdial.SplitOkIsRejected` states this case.
- **`--timeout` does not reach `timed_out`.** The default of `timeout` is bound when the function is defined (autowvdial.py:127), when `TIMEOUT` is still 60. The reassignment at autowvdial.py:173 only affects the serial-port timeouts. So the SIM-PIN deadline is always `AutoWvdial.DEADLINE` = 60.

## Model

| member | source | states |
|---|---|---|
| Mobileconnd.Watchdog.constructor | mobileconnd.c:13-14 | DONE starts clear and CHILD_PID starts at -1; the empty trace is well supervised |
| Mobileconnd.Watchdog.Terminate | mobileconnd.c:23-30 | DONE becomes set exactly when it was set or signo is SIGTERM/SIGINT; in that case SIGTERM is sent to whatever CHILD_PID holds, -1 included; any other signal records nothing else; the main loop's history is unchanged |
| Mobileconnd.Watchdog.DeliverAll | mobileconnd.c:23-30 | a burst of signals sets DONE exactly when one of them is a stop signal, and adds no main-loop event |
| Mobileconnd.Watchdog.RunProbe | mobileconnd.c:42-45 | a probe is run only at the top of the loop with DONE clear |
| Mobileconnd.Watchdog.StopStaleChild | mobileconnd.c:52-60 | with a child recorded: SIGTERM, 5 s sleep, SIGKILL to the same pid, then the slot is -1; without one nothing happens; signals in the grace period may set DONE |
| Mobileconnd.Watchdog.Warn | mobileconnd.c:55-56 | with a child recorded after a failed probe, SIGTERM goes to CHILD_PID and the 5 s grace sleep follows, so the pid is ready for SIGKILL |
| Mobileconnd.Watchdog.ForceKill | mobileconnd.c:57-58 | SIGKILL goes to the pid that was just given the grace period, and CHILD_PID becomes -1 |
| Mobileconnd.Watchdog.Spawn | mobileconnd.c:62-74 | fork is called with the slot empty and its result stored in CHILD_PID; failure exits with EXIT_FAILURE; the child execs the dialer with the fixed argv and _exits with EXIT_FAILURE if exec fails; the parent goes on |
| Mobileconnd.Watchdog.ExecDialer | mobileconnd.c:67-73 | only in the child of a fork: execlp of the dialer with its fixed argv; if that returns, _exit(EXIT_FAILURE); the process becomes the dialer or exits with EXIT_FAILURE |
| Mobileconnd.Watchdog.Pause | mobileconnd.c:81-82 | the 300 s sleep follows a successful probe or a successful fork; the slot is unchanged; signals during it may set DONE |
| Mobileconnd.Watchdog.Redial | mobileconnd.c:45-74 | after a failed probe: the recorded child, if any, is stopped, then a new dialer is forked and CHILD_PID holds the fork's result; a stop signal in the grace period sets DONE only when there was a child to wait for |
| Mobileconnd.Watchdog.Iterate | mobileconnd.c:43-83 | one iteration appends exactly IterationEvents, leaves CHILD_PID at PidAfter, and DONE is set exactly when a stop signal was delivered |
| Mobileconnd.Watchdog.Run | mobileconnd.c:42-86 | the loop's trace, fate and round count are those of RunEvents; it keeps looping only with DONE clear; main returns 0 only with DONE set, recording Exit(0) last |
| Mobileconnd.Watchdog.Loop | mobileconnd.c:42-83 | the iterations run while DONE is clear and rounds remain; their trace and fate agree with RunEvents; an iteration never ends the process with 0 |
| Mobileconnd.Watchdog.Finish | mobileconnd.c:85-86 | with DONE set at the top of the loop, main returns 0 and that is the last event recorded |
| SupervisorTrace.MainEventsOfHandlers | mobileconnd.c:23-30 | runs of the handler add nothing to the main loop's history |
| SupervisorTrace.IterationMainEvents | mobileconnd.c:44-82 | with handler runs left out, one iteration is: probe; after success, the 300 s sleep; after failure, SIGTERM/5 s/SIGKILL to the recorded child if any, then fork, then exit(1), exec (+ _exit(1)) or the sleep |
| SupervisorTrace.StopPersists | mobileconnd.c:13-27 | DONE is monotone: once set it is never cleared |
| SupervisorTrace.HandlersRequestStop | mobileconnd.c:25-27 | a burst of handler runs sets DONE exactly when one of the signals is SIGTERM or SIGINT |
| SupervisorTrace.AllowedAt | mobileconnd.c:42-83 | every fork happens with the slot at -1; every main-loop kill targets the recorded pid, never -1; every SIGKILL follows the grace sleep; every probe happens with DONE clear; Exit(0) only with DONE set |
| SupervisorTrace.NoForkWhileChildRecorded | mobileconnd.c:52-62 | at most one recorded child: a dialer forked with a positive pid is sent SIGKILL before the next fork |
| SupervisorTrace.GraceLaw | mobileconnd.c:55-57 | every SIGKILL is preceded by SIGTERM to the same pid and then the 5 s sleep, with only handler runs in between |
| SupervisorTrace.NoProbeAfterStop | mobileconnd.c:23-45 | once a stop signal has been handled the loop never probes again |
| SupervisorTrace.SuccessOnlyAfterStop | mobileconnd.c:42-86 | main returns 0 only after a stop signal was handled |
| SupervisorTrace.StopWitness | mobileconnd.c:25-27 | DONE is set only if some handled signal was SIGTERM or SIGINT |
| SupervisorTrace.HandlersOnly | mobileconnd.c:23-30 | handler runs are the only events a burst of signals records |
| SupervisorTrace.HealthyLinkNeverSpawns | mobileconnd.c:45-82 | while every probe succeeds the main loop never kills and never forks (the handler still forwards SIGTERM), and the run either keeps looping or returns 0 |
| SupervisorTrace.ForkFailureIsFatal | mobileconnd.c:62-66 | a failed fork ends the process with EXIT_FAILURE after one round, with no later probe |
| SupervisorTrace.TwoFailuresRestartDialer | mobileconnd.c:44-82 | two failed probes: fork 100, sleep; then SIGTERM 100, 5 s, SIGKILL 100, fork 200, sleep |
| SupervisorTrace.ShutdownForwardsToDialer | mobileconnd.c:23-86 | SIGTERM during the sleep is forwarded to the dialer and the loop returns 0 without probing again |
| SupervisorTrace.StopDuringProbeStillSpawns | mobileconnd.c:42-83 | a SIGTERM during a failing probe does not cut the iteration short: a new dialer is forked and left running when main returns 0 |
| Mobileconnd.HandlerPrefixStep | mobileconnd.c:23-30 | handling one more signal appends exactly its handler run, and DONE is then requested exactly when it was before or this signal is SIGTERM/SIGINT |
| Mobileconnd.DeliveredStop | mobileconnd.c:42-83 | an iteration delivers a stop signal exactly when the probe burst holds one, or the grace burst does (failed probe with a child recorded), or the sleep burst does (the iteration reaches the sleep) |
| Crlf.Split | autowvdial.py:95 | `str.split("\r\n")` yields at least one piece and its first piece is a prefix of the text |
| Crlf.JoinSplit | autowvdial.py:95 | joining the pieces with "\r\n" gives back the text |
| Crlf.SplitAllFree | autowvdial.py:95 | no piece holds "\r\n" |
| Crlf.SplitFree | autowvdial.py:94-95 | text without "\r\n" is one piece |
| Crlf.SplitHead | autowvdial.py:95 | a terminator-free head is cut off as the first piece |
| Crlf.SplitJoin | autowvdial.py:95 | splitting undoes joining terminator-free pieces, so the split is unique |
| Crlf.SplitCount | autowvdial.py:94-95 | `"\r\n" in buf` holds exactly when the split has two or more pieces |
| Crlf.JoinSnoc | autowvdial.py:95 | joining one more piece appends "\r\n" and that piece |
| Crlf.JoinLastTwo | autowvdial.py:96-98 | the text ends with the second-to-last piece, "\r\n" and the last piece, after text that is empty or ends in "\r\n" |
| AutoWvdial.ZeroTimeoutNeverExpires | autowvdial.py:133-134 | a zero timeout never expires |
| AutoWvdial.TimedOutExactly | autowvdial.py:133-139 | a non-zero timeout expires exactly when now > start + timeout |
| AutoWvdial.TimedOutMonotone | autowvdial.py:135-139 | an expired deadline stays expired as the clock advances |
| AutoWvdial.ReadStepWaits | autowvdial.py:93-94 | with no "\r\n" in the received text the step does not decide, keeps the whole text (ending in the chunk just read) as the buffer and leaves last_recv unchanged |
| AutoWvdial.ReadStepDecides | autowvdial.py:93-105 | with "\r\n" the step decides; the new buffer is the text after the last "\r\n"; last_recv becomes the line before it if non-empty, else keeps its value; success exactly when last_recv is "OK" |
| AutoWvdial.SplitOkIsRejected | autowvdial.py:93 | "O" then "K\r\n" is read as "OOK\r\n" and rejected |
| AutoWvdial.OkInOneRead | autowvdial.py:93-101 | "\r\nOK\r\n" in one read enters the PIN |
| AutoWvdial.EnterSimPin | autowvdial.py:89-106 | the loop's outcome is Attempt from empty buf and last_recv; it consumes no more polls than given |
| AutoWvdial.AttemptEndsByDeadline | autowvdial.py:92-106 | a poll past the deadline ends the attempt, if nothing ended it before |
| AutoWvdial.AttemptEnteredOnOk | autowvdial.py:92-101 | success means some poll k came before the deadline; every earlier poll, read from the locals the polls before it left, found no complete line; poll k, read from the locals the first k polls left, completed a line and left last_recv = "OK" |
| AutoWvdial.AttemptEnteredWhen | autowvdial.py:92-101 | conversely, such a poll k makes the attempt report the PIN entered, so the two lemmas characterise success |
| SystemdLog.CodeRoundTrip | autowvdial.py:22-32 | the severities and their codes 0..7 correspond one to one |
| SystemdLog.PrefixIsSeverity | autowvdial.py:22-32 | PREFIX has entries for exactly the six standard levels, each `<` + the RFC 5424 code of the level's severity + `>` (CRITICAL 2, ERROR 3, WARNING 4, INFO 6, DEBUG and NOTSET 7) |
| SystemdLog.EmitReadsBack | autowvdial.py:37-45 | emit writes exactly for the six standard levels, and the line reads back as the level's severity and `name:levelname:message` |

## Left out

- The real system calls: `system("ping ...")`, `fork`, `execlp`, `kill`, `sleep`, `exit`. Each is an input of the model (`Round`) or a recorded event.
- `system()` ignoring SIGINT and blocking SIGCHLD during the ping. Signals during the probe are delivered to the handler as usual.
- `sleep` returning early when a signal arrives. The model records the full sleep followed by the handler runs.
- What `kill(-1, SIGTERM)` does in the operating system (a broadcast). Only the call is recorded.
- True asynchronous signal delivery and `sig_atomic_t`. The handler runs only at three points of an iteration: during the probe, during the grace sleep and during the 300 s sleep. So the model does not cover a signal arriving between `fork` and the assignment to `CHILD_PID`.
- Zombie children: the daemon never reaps its dialers, and the model records no `wait`.
- Console output (`puts`, `perror`, `printf`) and Python's `logging` plumbing apart from the prefix and the format.
- `wait_for_modem` (autowvdial.py:53-74): a file-exists and serial-port polling loop with no result. Its first loop never breaks early.
- The serial port in `enter_sim_pin`: opening it, resetting its buffers, writing `AT+CPIN` and the exceptions. Each read is an input.
- `dial` (autowvdial.py:113-124), `exit_gracefully` (autowvdial.py:142-149) and the zero-argument `exit_gracefully()` call at autowvdial.py:185, which would raise a TypeError. These are thin wrappers over `subprocess` and `sys.exit`.
- `argparse` (autowvdial.py:156-173). Its only effect on the model is described above: `--timeout` does not reach `timed_out`.
- Floating-point wall-clock time. Clock readings are integers.
- AutoWvdial.EnterSimPin: the `Pending` outcome stands for a run whose polls ran out before a decision or a timeout. The real loop keeps polling.
- SystemdLog.Emit: exception text that `format` appends (`exc_info`) is not modelled, and the message is taken after `%`-substitution.
