/**
 * The log handler of autowvdial.py: every record goes to standard output as one line with a
 * `<N>` prefix, which the systemd journal reads as the record's syslog severity. The
 * severities and their numeric codes are those of section 6.2.1 of RFC 5424.
 */
module SystemdLog {
  import opened Wrappers

  /** Python's numeric logging levels. */
  const CRITICAL: int := 50
  const ERROR: int := 40
  const WARNING: int := 30
  const INFO: int := 20
  const DEBUG: int := 10
  const NOTSET: int := 0

  /** The eight syslog severities, most severe first. */
  datatype Severity = Emergency | Alert | Critical | Error | Warning | Notice | Informational | Debug

  /** A severity's numeric code. */
  function Code(sev: Severity): (code: nat)
  {
    match sev
    case Emergency => 0
    case Alert => 1
    case Critical => 2
    case Error => 3
    case Warning => 4
    case Notice => 5
    case Informational => 6
    case Debug => 7
  }

  /** The severity a code stands for, if it stands for one. */
  function SeverityOfCode(code: int): (sev: Option<Severity>)
  {
    if code == 0 then Some(Emergency)
    else if code == 1 then Some(Alert)
    else if code == 2 then Some(Critical)
    else if code == 3 then Some(Error)
    else if code == 4 then Some(Warning)
    else if code == 5 then Some(Notice)
    else if code == 6 then Some(Informational)
    else if code == 7 then Some(Debug)
    else None
  }

  /** Codes and severities are in one-to-one correspondence. */
  lemma CodeRoundTrip(sev: Severity)
    ensures Code(sev) < 8 && SeverityOfCode(Code(sev)) == Some(sev)
  {
  }

  /** The severity a standard logging level is sent with, matched by name; NOTSET goes as Debug. */
  function SeverityOfLevel(levelno: int): (sev: Option<Severity>)
  {
    if levelno == CRITICAL then Some(Critical)
    else if levelno == ERROR then Some(Error)
    else if levelno == WARNING then Some(Warning)
    else if levelno == INFO then Some(Informational)
    else if levelno == DEBUG || levelno == NOTSET then Some(Debug)
    else None
  }

  /** `SystemdHandler.PREFIX`: the table from logging level to line prefix. */
  function Prefix(levelno: int): (prefix: Option<string>)
  {
    if levelno == CRITICAL then Some("<2>")
    else if levelno == ERROR then Some("<3>")
    else if levelno == WARNING then Some("<4>")
    else if levelno == INFO then Some("<6>")
    else if levelno == DEBUG then Some("<7>")
    else if levelno == NOTSET then Some("<7>")
    else None
  }

  /** The decimal digit for `d`. */
  function Digit(d: nat): (c: char)
    requires d < 10
  {
    "0123456789"[d]
  }

  /** Every prefix in the table is `<`, the severity code of the level's name, and `>`. */
  lemma PrefixIsSeverity(levelno: int)
    ensures Prefix(levelno).Some? <==> SeverityOfLevel(levelno).Some?
    ensures SeverityOfLevel(levelno).Some? ==>
      Prefix(levelno).value == "<" + [Digit(Code(SeverityOfLevel(levelno).value))] + ">"
  {
  }

  /** The fields of a log record that the handler's formatter uses. */
  datatype LogRecord = LogRecord(name: string, levelno: int, levelname: string, message: string)

  /** The formatter `%(name)s:%(levelname)s:%(message)s`. */
  function Format(r: LogRecord): (text: string)
  {
    r.name + ":" + r.levelname + ":" + r.message
  }

  /**
   * What `emit` writes to the stream: the prefix, the formatted record and a newline; `None`
   * when the level is not in the table, since the failing lookup comes before the write.
   */
  function Emit(r: LogRecord): (written: Option<string>)
  {
    match Prefix(r.levelno)
    case None => None
    case Some(prefix) => Some(prefix + Format(r) + "\n")
  }

  /** Reading a journal line back: a `<d>` severity prefix, the text, a final newline. */
  function ParseLine(line: string): (parsed: Option<(Severity, string)>)
  {
    if |line| < 4 || line[0] != '<' || line[2] != '>' || line[|line| - 1] != '\n' then None
    else if !('0' <= line[1] <= '9') then None
    else match SeverityOfCode(line[1] as int - '0' as int)
      case None => None
      case Some(sev) => Some((sev, line[3..|line| - 1]))
  }

  /**
   * `emit` writes exactly for the six standard levels, and what it writes reads back as the
   * level's severity together with the formatted record.
   */
  lemma EmitReadsBack(r: LogRecord)
    ensures Emit(r).Some? <==> r.levelno in {CRITICAL, ERROR, WARNING, INFO, DEBUG, NOTSET}
    ensures Emit(r).Some? ==> ParseLine(Emit(r).value) == Some((SeverityOfLevel(r.levelno).value, Format(r)))
  {
    PrefixIsSeverity(r.levelno);
    if Emit(r).Some? {
      var sev := SeverityOfLevel(r.levelno).value;
      var line := Emit(r).value;
      var text := Format(r);
      assert line == "<" + [Digit(Code(sev))] + ">" + text + "\n";
      assert line[1] == Digit(Code(sev));
      assert line[1] as int - '0' as int == Code(sev);
      assert line[3..|line| - 1] == text;
    }
  }
}
