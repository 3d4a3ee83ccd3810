/**
 * The deadline test and the SIM-PIN reply reader of autowvdial.py. After `AT+CPIN=<pin>`
 * (the Enter PIN command of section 8.3 of 3GPP TS 27.007) the script polls the serial port,
 * accumulates what it reads and stops at the first complete line: success when the last
 * non-empty line is the final result code `OK`, failure on anything else, or a timeout.
 * Serial-port I/O and the clock become inputs: a `Poll` is one loop iteration's clock reading
 * and the text `ser.read(ser.in_waiting)` returned.
 */
module AutoWvdial {
  import opened Crlf

  /** Default deadline in seconds. */
  const TIMEOUT_DEFAULT: int := 60

  /**
   * The deadline every caller of `timed_out` gets: its `timeout` default is the value the
   * global TIMEOUT held when the function was defined, so a `--timeout` given later does not
   * change it.
   */
  const DEADLINE: int := TIMEOUT_DEFAULT

  /** The final result code that accepts the PIN. */
  const OK: string := "OK"

  // ---------------------------------------------------------------------------------------
  // timed_out

  /** `timed_out(start, timeout)` when the clock reads `now`. */
  function TimedOut(start: int, timeout: int, now: int): (expired: bool)
  {
    if timeout == 0 then false
    else if start + timeout >= now then false
    else true
  }

  /** A zero timeout never expires. */
  lemma ZeroTimeoutNeverExpires(start: int, now: int)
    ensures !TimedOut(start, 0, now)
  {
  }

  /** Any other timeout expires exactly when the clock has passed `start + timeout`. */
  lemma TimedOutExactly(start: int, timeout: int, now: int)
    requires timeout != 0
    ensures TimedOut(start, timeout, now) <==> now > start + timeout
  {
  }

  /** Once expired, a deadline stays expired as the clock advances. */
  lemma TimedOutMonotone(start: int, timeout: int, now: int, later: int)
    requires now <= later && TimedOut(start, timeout, now)
    ensures TimedOut(start, timeout, later)
  {
  }

  // ---------------------------------------------------------------------------------------
  // One step of the reply reader

  /** The reader's locals: `buf`, the unfinished text, and `last_recv`, the last non-empty line. */
  datatype PinState = PinState(buf: string, lastRecv: string)

  /** The locals before the first read. */
  const INITIAL: PinState := PinState("", "")

  /** What one read does: keep waiting, or decide (and return) with the updated locals. */
  datatype Step = Waiting(next: PinState) | Decided(entered: bool, next: PinState)

  /**
   * The text the step examines after reading `chunk`: the statement `buf += buf + chunk`
   * appends the old buffer AND the chunk to the old buffer, so what was already buffered
   * appears twice.
   */
  function Received(st: PinState, chunk: string): (text: string)
  {
    st.buf + st.buf + chunk
  }

  /** One iteration of the loop body after the deadline test. */
  function ReadStep(st: PinState, chunk: string): (step: Step)
  {
    var buf := Received(st, chunk);
    if !ContainsCrlf(buf) then Waiting(PinState(buf, st.lastRecv))
    else
      SplitCount(buf);
      var lines := Split(buf);
      var lastRecv := if lines[|lines| - 2] != "" then lines[|lines| - 2] else st.lastRecv;
      Decided(lastRecv == OK, PinState(lines[|lines| - 1], lastRecv))
  }

  /**
   * Without a terminator in the received text the step decides nothing: the whole text is
   * kept as the buffer, it ends with the chunk just read, and `last_recv` is unchanged.
   */
  lemma ReadStepWaits(st: PinState, chunk: string)
    ensures ReadStep(st, chunk).Waiting? <==> !ContainsCrlf(Received(st, chunk))
    ensures ReadStep(st, chunk).Waiting? ==>
      var next := ReadStep(st, chunk).next;
      next.lastRecv == st.lastRecv && next.buf == Received(st, chunk) &&
      |chunk| <= |next.buf| && next.buf[|next.buf| - |chunk|..] == chunk
  {
  }

  /**
   * With a terminator in the received text the step decides. The text is
   * `before + line + "\r\n" + buf'` where `buf'`, the new buffer, is everything after the last
   * terminator, `line` is the line it ends, and `before` is empty or ends with a terminator.
   * `last_recv` becomes `line` unless that is empty, and the PIN counts as entered exactly
   * when `last_recv` is then `OK`.
   */
  lemma ReadStepDecides(st: PinState, chunk: string) returns (before: string, line: string)
    requires ContainsCrlf(Received(st, chunk))
    ensures ReadStep(st, chunk).Decided?
    ensures var next := ReadStep(st, chunk).next;
      Received(st, chunk) == before + line + CRLF + next.buf &&
      !ContainsCrlf(line) && !ContainsCrlf(next.buf) &&
      (before == "" || (|before| >= 2 && before[|before| - 2..] == CRLF)) &&
      next.lastRecv == (if line != "" then line else st.lastRecv) &&
      (ReadStep(st, chunk).entered <==> next.lastRecv == OK)
  {
    var buf := Received(st, chunk);
    SplitCount(buf);
    SplitAllFree(buf);
    JoinSplit(buf);
    var lines := Split(buf);
    var n := |lines|;
    line := lines[n - 2];
    assert !ContainsCrlf(line) && !ContainsCrlf(lines[n - 1]);
    before := JoinLastTwo(lines);
  }

  /**
   * When the received text splits into two or more lines, the step takes the last line as the
   * new buffer and the line before it as the reply.
   */
  lemma ReadStepOfLines(st: PinState, chunk: string, lines: seq<string>)
    requires |lines| >= 2 && Split(Received(st, chunk)) == lines
    ensures var reply := lines[|lines| - 2];
      var lastRecv := if reply != "" then reply else st.lastRecv;
      ReadStep(st, chunk) == Decided(lastRecv == OK, PinState(lines[|lines| - 1], lastRecv))
  {
    SplitCount(Received(st, chunk));
  }

  /**
   * Because of the doubling, an `OK` that arrives split over two reads is read back as `OOK`
   * and the PIN attempt is reported as failed.
   */
  lemma SplitOkIsRejected()
    ensures ReadStep(INITIAL, "O") == Waiting(PinState("O", ""))
    ensures ReadStep(PinState("O", ""), "K\r\n") == Decided(false, PinState("", "OOK"))
  {
    assert Received(INITIAL, "O") == "O";
    assert !ContainsCrlf("O");
    var lines := ["OOK", ""];
    assert !ContainsCrlf("OOK") by {
      assert !HasCrlfAt("OOK", 0) && !HasCrlfAt("OOK", 1) && !HasCrlfAt("OOK", 2);
    }
    assert AllFree(lines) by {
      assert !ContainsCrlf(lines[0]) && !ContainsCrlf(lines[1]);
    }
    assert Received(PinState("O", ""), "K\r\n") == Join(lines) by {
      assert Join(lines) == "OOK" + CRLF + Join([""]);
    }
    SplitJoin(lines);
    ReadStepOfLines(PinState("O", ""), "K\r\n", lines);
  }

  /** A reply `\r\nOK\r\n` read in one piece enters the PIN. */
  lemma OkInOneRead()
    ensures ReadStep(INITIAL, "\r\nOK\r\n") == Decided(true, PinState("", OK))
  {
    var lines := ["", OK, ""];
    assert !ContainsCrlf(OK) by {
      assert !HasCrlfAt(OK, 0) && !HasCrlfAt(OK, 1);
    }
    assert AllFree(lines) by {
      assert !ContainsCrlf(lines[0]) && !ContainsCrlf(lines[1]) && !ContainsCrlf(lines[2]);
    }
    assert Received(INITIAL, "\r\nOK\r\n") == Join(lines) by {
      assert [OK, ""][1..] == [""];
      assert Join([OK, ""]) == OK + CRLF + "";
      assert lines[1..] == [OK, ""];
      assert Join(lines) == "" + CRLF + (OK + CRLF + "");
    }
    SplitJoin(lines);
    ReadStepOfLines(INITIAL, "\r\nOK\r\n", lines);
  }

  // ---------------------------------------------------------------------------------------
  // The reader loop

  /** One loop iteration's inputs: the clock reading and the text read from the port. */
  datatype Poll = Poll(now: int, chunk: string)

  /**
   * How `enter_sim_pin` ends: the PIN was accepted; an error reply with the values it logs;
   * the deadline passed; or the polls given ran out while still waiting.
   */
  datatype PinOutcome = Entered | Rejected(lastRecv: string, buf: string) | TimedOutWaiting | Pending(st: PinState)

  /** The outcome of the loop from the locals `st` over the given polls. */
  function Attempt(st: PinState, start: int, polls: seq<Poll>): (outcome: PinOutcome)
    decreases |polls|
  {
    if polls == [] then Pending(st)
    else if TimedOut(start, DEADLINE, polls[0].now) then TimedOutWaiting
    else match ReadStep(st, polls[0].chunk)
      case Waiting(next) => Attempt(next, start, polls[1..])
      case Decided(entered, next) => if entered then Entered else Rejected(next.lastRecv, next.buf)
  }

  /**
   * The loop of `enter_sim_pin` after the PIN command is written: `used` polls are consumed,
   * and the outcome is the one `Attempt` specifies.
   */
  method EnterSimPin(start: int, polls: seq<Poll>) returns (outcome: PinOutcome, used: nat)
    ensures outcome == Attempt(INITIAL, start, polls)
    ensures used <= |polls| && (outcome.Pending? ==> used == |polls|)
  {
    var st := INITIAL;
    used := 0;
    while used < |polls|
      invariant used <= |polls|
      invariant Attempt(INITIAL, start, polls) == Attempt(st, start, polls[used..])
    {
      var poll := polls[used];
      assert polls[used..][1..] == polls[used + 1..];
      if TimedOut(start, DEADLINE, poll.now) {
        return TimedOutWaiting, used + 1;
      }
      var step := ReadStep(st, poll.chunk);
      used := used + 1;
      match step {
        case Waiting(next) =>
          st := next;
        case Decided(entered, next) =>
          if entered {
            return Entered, used;
          } else {
            return Rejected(next.lastRecv, next.buf), used;
          }
      }
    }
    outcome := Pending(st);
  }

  /** A poll whose clock reading is past the deadline ends the loop, if nothing ended it before. */
  lemma {:induction false} AttemptEndsByDeadline(st: PinState, start: int, polls: seq<Poll>, k: nat)
    requires k < |polls| && TimedOut(start, DEADLINE, polls[k].now)
    ensures !Attempt(st, start, polls).Pending?
    decreases |polls|
  {
    if k > 0 && !TimedOut(start, DEADLINE, polls[0].now) {
      var step := ReadStep(st, polls[0].chunk);
      if step.Waiting? {
        AttemptEndsByDeadline(step.next, start, polls[1..], k - 1);
      }
    }
  }

  /** The locals after the reads of polls in turn, each applying ReadStep to the locals before it. */
  function StateAfter(st: PinState, polls: seq<Poll>): (after: PinState)
    decreases |polls|
  {
    if polls == [] then st else StateAfter(ReadStep(st, polls[0].chunk).next, polls[1..])
  }

  /** Reading the first j polls is reading the first one, then the j - 1 after it. */
  lemma StateAfterCons(st: PinState, polls: seq<Poll>, j: int)
    requires 1 <= j <= |polls|
    ensures StateAfter(st, polls[..j]) == StateAfter(ReadStep(st, polls[0].chunk).next, polls[1..][..j - 1])
  {
    assert polls[..j][0] == polls[0];
    assert polls[..j][1..] == polls[1..][..j - 1];
  }

  /**
   * The PIN is reported entered only at a poll k before the deadline where, from the locals
   * the earlier polls left, a complete line arrived and the last non-empty line was `OK`;
   * every earlier poll found no complete line.
   */
  lemma {:induction false} AttemptEnteredOnOk(st: PinState, start: int, polls: seq<Poll>) returns (k: nat, at: PinState)
    requires Attempt(st, start, polls) == Entered
    ensures k < |polls| && at == StateAfter(st, polls[..k])
    ensures forall j :: 0 <= j <= k ==> !TimedOut(start, DEADLINE, polls[j].now)
    ensures forall j :: 0 <= j < k ==> ReadStep(StateAfter(st, polls[..j]), polls[j].chunk).Waiting?
    ensures ReadStep(at, polls[k].chunk).Decided? && ReadStep(at, polls[k].chunk).entered
    ensures ReadStep(at, polls[k].chunk).next.lastRecv == OK
    decreases |polls|
  {
    var step := ReadStep(st, polls[0].chunk);
    if step.Decided? {
      k, at := 0, st;
      assert polls[..0] == [];
      ReadStepDecidedOk(st, polls[0].chunk);
    } else {
      var k', at' := AttemptEnteredOnOk(step.next, start, polls[1..]);
      k, at := k' + 1, at';
      StateAfterCons(st, polls, k);
      forall j | 0 <= j <= k
        ensures !TimedOut(start, DEADLINE, polls[j].now)
      {
        if j > 0 {
          assert polls[j] == polls[1..][j - 1];
        }
      }
      forall j | 0 <= j < k
        ensures ReadStep(StateAfter(st, polls[..j]), polls[j].chunk).Waiting?
      {
        if j == 0 {
          assert polls[..0] == [];
        } else {
          StateAfterCons(st, polls, j);
          assert polls[j] == polls[1..][j - 1];
        }
      }
    }
  }

  /**
   * Conversely, a poll k as above makes the attempt report the PIN entered: together with
   * AttemptEnteredOnOk this characterises the `Entered` outcome.
   */
  lemma {:induction false} AttemptEnteredWhen(st: PinState, start: int, polls: seq<Poll>, k: nat)
    requires k < |polls|
    requires forall j :: 0 <= j <= k ==> !TimedOut(start, DEADLINE, polls[j].now)
    requires forall j :: 0 <= j < k ==> ReadStep(StateAfter(st, polls[..j]), polls[j].chunk).Waiting?
    requires ReadStep(StateAfter(st, polls[..k]), polls[k].chunk).Decided?
    requires ReadStep(StateAfter(st, polls[..k]), polls[k].chunk).entered
    ensures Attempt(st, start, polls) == Entered
    decreases k
  {
    assert polls[..0] == [];
    assert !TimedOut(start, DEADLINE, polls[0].now);
    if k > 0 {
      var next := ReadStep(st, polls[0].chunk).next;
      assert ReadStep(st, polls[0].chunk).Waiting?;
      forall j | 0 <= j <= k - 1
        ensures !TimedOut(start, DEADLINE, polls[1..][j].now)
      {
        assert polls[1..][j] == polls[j + 1];
      }
      forall j | 0 <= j < k - 1
        ensures ReadStep(StateAfter(next, polls[1..][..j]), polls[1..][j].chunk).Waiting?
      {
        StateAfterCons(st, polls, j + 1);
        assert polls[1..][j] == polls[j + 1];
      }
      StateAfterCons(st, polls, k);
      assert polls[1..][k - 1] == polls[k];
      AttemptEnteredWhen(next, start, polls[1..], k - 1);
    }
  }

  /** A deciding step that enters the PIN leaves `OK` as the last line received. */
  lemma ReadStepDecidedOk(st: PinState, chunk: string)
    requires ReadStep(st, chunk).Decided? && ReadStep(st, chunk).entered
    ensures ReadStep(st, chunk).next.lastRecv == OK
  {
  }
}
