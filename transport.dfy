/**
 * The pure parts of the HTTP transport in `BackendClient`: how `getRawText`
 * turns the response stream into one string (line by line, through
 * `BufferedReader.readLine`), and when `postData` counts a POST as a success.
 * Opening connections, timeouts and `disconnect` are not modelled; the
 * network's answer is an input.
 */
module Transport {
  import opened JavaLang

  /** `HttpURLConnection.HTTP_OK` */
  const HttpOk: int32 := 200

  /** What a POST attempt comes back with: an I/O failure, or a status code (`-1` when the reply is not valid HTTP). */
  datatype PostOutcome = ConnectionFailed | Responded(code: int32)

  predicate IsLineTerminator(c: char) {
    c == '\n' || c == '\r'
  }

  predicate NoLineTerminator(s: string) {
    forall i :: 0 <= i < |s| ==> !IsLineTerminator(s[i])
  }

  /**
   * `BufferedReader.readLine` on a non-empty remaining stream: the text up to
   * the first '\n', '\r' or "\r\n" (without it), and what follows the
   * terminator. At the end of the stream an unterminated last line is
   * returned as it is.
   */
  function ReadLine(t: string): (p: (string, string))
    requires t != []
    ensures NoLineTerminator(p.0)
    ensures |p.1| < |t|
  {
    if t[0] == '\n' then ([], t[1..])
    else if t[0] == '\r' then ([], if |t| > 1 && t[1] == '\n' then t[2..] else t[1..])
    else if |t| == 1 then (t, [])
    else
      var (line, rest) := ReadLine(t[1..]);
      ([t[0]] + line, rest)
  }

  /**
   * What `ReadLine` splits off: the line is the text before the first
   * terminator, and the rest starts right after exactly one "\n", "\r"
   * (a lone one) or "\r\n", or is empty when the stream ended without one.
   */
  lemma {:induction false} ReadLineSplitsAtFirstTerminator(t: string)
    requires t != []
    ensures var (line, rest) := ReadLine(t);
      && |line| + |rest| <= |t|
      && line == t[..|line|] && rest == t[|t| - |rest|..]
      && var terminator := t[|line|..|t| - |rest|];
        || (terminator == "" && rest == [])
        || terminator == "\n"
        || (terminator == "\r" && (rest == [] || rest[0] != '\n'))
        || terminator == "\r\n"
    decreases |t|
  {
    if !IsLineTerminator(t[0]) && |t| > 1 {
      ReadLineSplitsAtFirstTerminator(t[1..]);
      var (line, rest) := ReadLine(t[1..]);
      assert ReadLine(t) == ([t[0]] + line, rest);
      assert t[1..][|line|..|t| - 1 - |rest|] == t[1 + |line|..|t| - |rest|];
    }
  }

  /** The lines `readLine` yields, one after another, until it returns `null` at the end of the stream. */
  function Lines(t: string): seq<string>
    decreases |t|
  {
    if t == [] then [] else
      var (line, rest) := ReadLine(t);
      [line] + Lines(rest)
  }

  /** Lines appended one after another, with nothing in between. */
  function Concat(lines: seq<string>): string {
    if lines == [] then [] else lines[0] + Concat(lines[1..])
  }

  /** The text with every '\n' and '\r' removed. */
  function StripLineTerminators(t: string): (r: string)
    ensures NoLineTerminator(r)
  {
    if t == [] then []
    else (if IsLineTerminator(t[0]) then [] else [t[0]]) + StripLineTerminators(t[1..])
  }

  lemma {:induction false} ReadLineStrips(t: string)
    requires t != []
    ensures StripLineTerminators(t) == ReadLine(t).0 + StripLineTerminators(ReadLine(t).1)
    decreases |t|
  {
    var strip1 := StripLineTerminators(t[1..]);
    if t[0] == '\n' {
      assert ReadLine(t) == ([], t[1..]);
    } else if t[0] == '\r' {
      if |t| > 1 && t[1] == '\n' {
        assert t[1..][1..] == t[2..];
        assert strip1 == StripLineTerminators(t[2..]);
        assert ReadLine(t) == ([], t[2..]);
      } else {
        assert ReadLine(t) == ([], t[1..]);
      }
    } else if |t| == 1 {
      assert ReadLine(t) == (t, []);
    } else {
      var (line, rest) := ReadLine(t[1..]);
      assert ReadLine(t) == ([t[0]] + line, rest);
      ReadLineStrips(t[1..]);
      assert StripLineTerminators(t) == [t[0]] + strip1;
    }
  }

  /**
   * Joining the lines without separators gives the response text with all
   * its line terminators dropped: a newline inside the body (even inside a
   * JSON string) does not survive.
   */
  lemma {:induction false} ConcatLinesStrips(t: string)
    ensures Concat(Lines(t)) == StripLineTerminators(t)
    decreases |t|
  {
    if t != [] {
      var (line, rest) := ReadLine(t);
      assert ([line] + Lines(rest))[1..] == Lines(rest);
      ConcatLinesStrips(rest);
      ReadLineStrips(t);
    }
  }

  /** A body without line terminators is read back exactly. */
  lemma {:induction false} SingleLineBodyUnchanged(t: string)
    requires NoLineTerminator(t)
    ensures Concat(Lines(t)) == t
    decreases |t|
  {
    ConcatLinesStrips(t);
    StripIdentity(t);
  }

  lemma {:induction false} StripIdentity(t: string)
    requires NoLineTerminator(t)
    ensures StripLineTerminators(t) == t
    decreases |t|
  {
    if t != [] {
      StripIdentity(t[1..]);
    }
  }

  /**
   * The read loop of `getRawText`: call `readLine` until it returns `null`,
   * appending each line to the builder.
   */
  method ReadBody(stream: string) returns (body: string)
    ensures body == Concat(Lines(stream))
    ensures body == StripLineTerminators(stream)
  {
    body := [];
    var rest := stream;
    while rest != []
      invariant body + Concat(Lines(rest)) == Concat(Lines(stream))
      decreases |rest|
    {
      var (line, next) := ReadLine(rest);
      assert Lines(rest) == [line] + Lines(next);
      assert ([line] + Lines(next))[1..] == Lines(next);
      body := body + line;
      rest := next;
    }
    ConcatLinesStrips(stream);
  }

  /**
   * The status test of `postData`: the POST fails when the code is `-1` or
   * anything other than 200, so it succeeds exactly on 200.
   */
  function StatusIsSuccess(code: int32): (ok: bool)
    ensures ok <==> code == HttpOk
  {
    !(code == -1 || code != HttpOk)
  }

  /** `postData` returns normally (no `IOException`) exactly when the server answered 200. */
  function PostSucceeded(outcome: PostOutcome): (ok: bool)
    ensures ok <==> outcome == Responded(HttpOk)
  {
    match outcome
    case ConnectionFailed => false
    case Responded(code) => StatusIsSuccess(code)
  }
}
