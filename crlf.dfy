/**
 * Python's `str.split("\r\n")` and `"\r\n" in s` on text, as the SIM-PIN reader in
 * autowvdial.py uses them to cut the modem's replies into lines.
 */
module Crlf {

  /** The line terminator of the modem's replies. */
  const CRLF: string := "\r\n"

  /** `s` holds a carriage return immediately followed by a line feed at index `i`. */
  predicate HasCrlfAt(s: string, i: int)
  {
    0 <= i && i + 1 < |s| && s[i] == '\r' && s[i + 1] == '\n'
  }

  /** Python's `"\r\n" in s`. */
  predicate ContainsCrlf(s: string)
  {
    exists i :: 0 <= i < |s| && HasCrlfAt(s, i)
  }

  /**
   * Python's `s.split("\r\n")`: the pieces between the terminators, scanning from the left.
   * The first piece is always a prefix of `s`.
   */
  function Split(s: string): (parts: seq<string>)
    ensures |parts| >= 1 && parts[0] <= s
    decreases |s|
  {
    if |s| < 2 then [s]
    else if s[0] == '\r' && s[1] == '\n' then [""] + Split(s[2..])
    else
      var rest := Split(s[1..]);
      [[s[0]] + rest[0]] + rest[1..]
  }

  /** Python's `"\r\n".join(parts)`. */
  function Join(parts: seq<string>): (text: string)
    requires |parts| >= 1
    decreases |parts|
  {
    if |parts| == 1 then parts[0] else parts[0] + CRLF + Join(parts[1..])
  }

  /** No piece holds a terminator. */
  predicate AllFree(parts: seq<string>)
  {
    forall i :: 0 <= i < |parts| ==> !ContainsCrlf(parts[i])
  }

  // ---------------------------------------------------------------------------------------
  // Split and Join are inverse to each other

  lemma JoinConsChar(c: char, p: string, ps: seq<string>)
    ensures Join([[c] + p] + ps) == [c] + Join([p] + ps)
  {
    if ps == [] {
    } else {
      assert ([[c] + p] + ps)[1..] == ps;
      assert ([p] + ps)[1..] == ps;
    }
  }

  /** Joining the pieces gives back the text. */
  lemma {:induction false} JoinSplit(s: string)
    ensures Join(Split(s)) == s
    decreases |s|
  {
    if |s| < 2 {
    } else if s[0] == '\r' && s[1] == '\n' {
      JoinSplit(s[2..]);
      assert ([""] + Split(s[2..]))[1..] == Split(s[2..]);
      assert s == CRLF + s[2..];
    } else {
      var rest := Split(s[1..]);
      JoinSplit(s[1..]);
      JoinConsChar(s[0], rest[0], rest[1..]);
      assert [rest[0]] + rest[1..] == rest;
      assert s == [s[0]] + s[1..];
    }
  }

  /** A piece that `Split` returns never holds a terminator. */
  lemma {:induction false} SplitAllFree(s: string)
    ensures AllFree(Split(s))
    decreases |s|
  {
    if |s| < 2 {
      assert !HasCrlfAt(s, 0);
    } else if s[0] == '\r' && s[1] == '\n' {
      SplitAllFree(s[2..]);
      var parts := Split(s);
      forall i | 0 <= i < |parts|
        ensures !ContainsCrlf(parts[i])
      {
        if i > 0 {
          assert parts[i] == Split(s[2..])[i - 1];
        }
      }
    } else {
      var rest := Split(s[1..]);
      SplitAllFree(s[1..]);
      var head := [s[0]] + rest[0];
      assert !ContainsCrlf(rest[0]);
      assert !ContainsCrlf(head) by {
        forall i | 0 <= i < |head|
          ensures !HasCrlfAt(head, i)
        {
          if i > 0 {
            assert !HasCrlfAt(rest[0], i - 1);
          } else if |rest[0]| > 0 {
            assert rest[0][0] == s[1];
          }
        }
      }
      var parts := Split(s);
      forall i | 0 <= i < |parts|
        ensures !ContainsCrlf(parts[i])
      {
        if i > 0 {
          assert parts[i] == rest[i];
        }
      }
    }
  }

  /** Text without a terminator is one piece. */
  lemma {:induction false} SplitFree(p: string)
    requires !ContainsCrlf(p)
    ensures Split(p) == [p]
    decreases |p|
  {
    if |p| >= 2 {
      assert !HasCrlfAt(p, 0);
      assert !ContainsCrlf(p[1..]) by {
        forall i | 0 <= i < |p[1..]|
          ensures !HasCrlfAt(p[1..], i)
        {
          assert !HasCrlfAt(p, i + 1);
        }
      }
      SplitFree(p[1..]);
      assert [p[0]] + p[1..] == p;
    }
  }

  /** A terminator-free head is cut off as the first piece. */
  lemma {:induction false} SplitHead(p: string, tail: string)
    requires !ContainsCrlf(p)
    ensures Split(p + CRLF + tail) == [p] + Split(tail)
    decreases |p|
  {
    var s := p + CRLF + tail;
    if p == [] {
      assert s == CRLF + tail;
      assert s[2..] == tail;
    } else {
      var q := p[1..];
      assert !ContainsCrlf(q) by {
        forall i | 0 <= i < |q|
          ensures !HasCrlfAt(q, i)
        {
          assert !HasCrlfAt(p, i + 1);
        }
      }
      assert !(s[0] == '\r' && s[1] == '\n') by {
        if |q| > 0 {
          assert !HasCrlfAt(p, 0);
        }
      }
      assert s[1..] == q + CRLF + tail;
      SplitHead(q, tail);
      assert [p[0]] + q == p;
    }
  }

  /** `Split` is the only way to cut text into terminator-free pieces joined by terminators. */
  lemma {:induction false} SplitJoin(parts: seq<string>)
    requires |parts| >= 1 && AllFree(parts)
    ensures Split(Join(parts)) == parts
    decreases |parts|
  {
    if |parts| == 1 {
      SplitFree(parts[0]);
    } else {
      assert AllFree(parts[1..]) by {
        forall i | 0 <= i < |parts[1..]|
          ensures !ContainsCrlf(parts[1..][i])
        {
          assert parts[1..][i] == parts[i + 1];
        }
      }
      SplitJoin(parts[1..]);
      SplitHead(parts[0], Join(parts[1..]));
      assert [parts[0]] + parts[1..] == parts;
    }
  }

  /** Python's `"\r\n" in s` holds exactly when `s.split("\r\n")` has more than one piece. */
  lemma SplitCount(s: string)
    ensures |Split(s)| >= 2 <==> ContainsCrlf(s)
  {
    var parts := Split(s);
    if |parts| >= 2 {
      JoinSplit(s);
      assert s == parts[0] + CRLF + Join(parts[1..]);
      assert HasCrlfAt(s, |parts[0]|);
    } else {
      JoinSplit(s);
      SplitAllFree(s);
      assert s == Join(parts) == parts[0];
    }
  }

  /** Appending one more piece adds a terminator and that piece at the end. */
  lemma {:induction false} JoinSnoc(parts: seq<string>, x: string)
    requires |parts| >= 1
    ensures Join(parts + [x]) == Join(parts) + CRLF + x
    decreases |parts|
  {
    if |parts| == 1 {
      assert (parts + [x])[1..] == [x];
    } else {
      assert (parts + [x])[1..] == parts[1..] + [x];
      JoinSnoc(parts[1..], x);
    }
  }

  /**
   * Joined pieces end with the last two pieces around the last terminator; what comes before
   * them is empty or ends with a terminator.
   */
  lemma JoinLastTwo(parts: seq<string>) returns (before: string)
    requires |parts| >= 2
    ensures Join(parts) == before + parts[|parts| - 2] + CRLF + parts[|parts| - 1]
    ensures before == "" || (|before| >= 2 && before[|before| - 2..] == CRLF)
  {
    var n := |parts|;
    assert parts == parts[..n - 1] + [parts[n - 1]];
    JoinSnoc(parts[..n - 1], parts[n - 1]);
    if n == 2 {
      before := "";
    } else {
      before := Join(parts[..n - 2]) + CRLF;
      assert parts[..n - 1] == parts[..n - 2] + [parts[n - 2]];
      JoinSnoc(parts[..n - 2], parts[n - 2]);
    }
  }
}
