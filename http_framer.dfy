/**
 * The HTTP framing of RPCClient::net_process (c++/rpcclient.cpp:38-101):
 * reading the response header one CRLF-terminated line at a time from the
 * socket, interpreting the status line and the Connection and
 * Content-Length headers, and reading the body that follows.
 *
 * The socket is the text `input` with a read position: read_all(buf, n)
 * succeeds when n more characters remain and fails otherwise.  The ten
 * second timeout is not modelled.
 */
module HttpFramer {
  import opened Common
  import opened Disconnects
  import opened CNumbers

  /** A header line longer than this, with its CRLF, ends the connection. */
  const MaxHeaderLine: nat := 16384
  /** The largest Content-Length accepted. */
  const MaxContentLength: nat := 100 * 1024 * 1024
  const StatusOk: string := "HTTP/1.1 200 OK"
  const ConnectionPrefix: string := "Connection: "
  const ContentLengthPrefix: string := "Content-Length: "
  /** The text every body must start with. */
  const ExpectedStart: string := "{\"result\":{"

  // ---------------------------------------------------------------------------
  // Line framing (rpcclient.cpp:38-55)
  // ---------------------------------------------------------------------------

  predicate CrlfAt(s: string, j: int) {
    0 <= j && j + 1 < |s| && s[j] == '\r' && s[j + 1] == '\n'
  }

  function FirstCrlfFrom(s: string, i: nat): (r: Option<nat>)
    requires i <= |s|
    ensures r.Some? ==> i <= r.value && CrlfAt(s, r.value) && forall j :: i <= j < r.value ==> !CrlfAt(s, j)
    ensures r.None? ==> forall j :: i <= j ==> !CrlfAt(s, j)
    decreases |s| - i
  {
    if i + 1 >= |s| then None
    else if s[i] == '\r' && s[i + 1] == '\n' then Some(i)
    else FirstCrlfFrom(s, i + 1)
  }

  /** std::string::find("\r\n"): the first CRLF, if any. */
  function FirstCrlf(s: string): (r: Option<nat>)
    ensures r.Some? ==> CrlfAt(s, r.value) && forall j :: 0 <= j < r.value ==> !CrlfAt(s, j)
    ensures r.None? ==> forall j :: !CrlfAt(s, j)
  {
    FirstCrlfFrom(s, 0)
  }

  /**
   * What reading one header line from the unread text `rest` gives: the
   * length of the line before its CRLF, or why the connection ends.  A
   * line whose CRLF lies beyond MaxHeaderLine is too long.  Without any
   * CRLF, the reads run out first when at most MaxHeaderLine characters
   * remain; with exactly one more, which limit is met first depends on
   * whether a lone '\r' turns the two-byte reads into one-byte reads.
   */
  function LineOutcome(rest: string): (r: Result<nat, Reason>)
    ensures r.Ok? <==> FirstCrlf(rest).Some? && FirstCrlf(rest).value + 2 <= MaxHeaderLine
    ensures r.Ok? ==> CrlfAt(rest, r.value) && forall j :: 0 <= j < r.value ==> !CrlfAt(rest, j)
    ensures r.Err? ==> r.error == HeaderTooLong || r.error == ServerResponseReadFailed
  {
    match FirstCrlf(rest)
    case Some(k) => if k + 2 <= MaxHeaderLine then Ok(k) else Err(HeaderTooLong)
    case None =>
      if |rest| > MaxHeaderLine + 1 || (|rest| == MaxHeaderLine + 1 && '\r' in rest[..MaxHeaderLine]) then
        Err(HeaderTooLong)
      else
        Err(ServerResponseReadFailed)
  }

  /** A line without CRLF, not ending in '\r' and short enough, is read back whole. */
  lemma LineOutcomeOfLine(l: string, t: string)
    requires forall j :: !CrlfAt(l, j)
    requires |l| == 0 || l[|l| - 1] != '\r'
    requires |l| + 2 <= MaxHeaderLine
    ensures LineOutcome(l + "\r\n" + t) == Ok(|l|)
  {
    var s := l + "\r\n" + t;
    assert CrlfAt(s, |l|);
    forall j | 0 <= j < |l|
      ensures !CrlfAt(s, j)
    {
      if j + 1 < |l| {
        assert !CrlfAt(l, j);
      }
    }
  }

  /** The state of the line loop: `line` is what was read so far of `rest`. */
  ghost predicate Reading(rest: string, line: string) {
    |line| <= |rest| && line == rest[..|line|] && |line| <= MaxHeaderLine
    && FirstCrlf(line).None?
    && (forall j :: CrlfAt(rest, j) ==> j + 2 >= |line|)
    && (|line| % 2 == 1 ==> '\r' in line)
  }

  /** The size of the next read: one byte once a '\r' was read, two before. */
  function ReadSize(line: string): nat {
    if '\r' in line then 1 else 2
  }

  /** A read never passes the first CRLF of `rest`. */
  lemma ReadStaysBeforeCrlf(rest: string, line: string, j: int)
    requires Reading(rest, line) && CrlfAt(rest, j)
    ensures j + 2 >= |line| + ReadSize(line)
  {
    if j + 2 == |line| {
      assert CrlfAt(line, j);
    } else if j + 2 == |line| + 1 {
      assert line[j] == '\r';
    }
  }

  /** A read that fails: `rest` has no CRLF and is no longer than LineOutcome allows. */
  lemma ReadFails(rest: string, line: string)
    requires Reading(rest, line) && |line| + ReadSize(line) > |rest|
    ensures LineOutcome(rest) == Err(ServerResponseReadFailed)
  {
    forall j | CrlfAt(rest, j)
      ensures false
    {
      ReadStaysBeforeCrlf(rest, line, j);
    }
    if |rest| == MaxHeaderLine + 1 {
      assert line == rest[..MaxHeaderLine];
    }
  }

  /** A read that passes MaxHeaderLine: the line is too long. */
  lemma ReadOverlong(rest: string, line: string)
    requires Reading(rest, line) && |line| + ReadSize(line) <= |rest|
    requires |line| + ReadSize(line) > MaxHeaderLine
    ensures LineOutcome(rest) == Err(HeaderTooLong)
  {
    match FirstCrlf(rest)
    case Some(k) =>
      ReadStaysBeforeCrlf(rest, line, k);
    case None =>
      if |rest| == MaxHeaderLine + 1 {
        assert '\r' in line;
        assert line == rest[..MaxHeaderLine][..|line|];
      }
  }

  /** After a read within the limits, either the loop goes on or the line is complete. */
  lemma ReadExtends(rest: string, line: string)
    requires Reading(rest, line) && |line| + ReadSize(line) <= |rest|
    requires |line| + ReadSize(line) <= MaxHeaderLine
    ensures var line' := rest[..|line| + ReadSize(line)];
      forall j :: CrlfAt(rest, j) ==> j + 2 >= |line'|
    ensures var line' := rest[..|line| + ReadSize(line)];
      |line'| % 2 == 1 ==> '\r' in line'
  {
    forall j | CrlfAt(rest, j)
      ensures j + 2 >= |line| + ReadSize(line)
    {
      ReadStaysBeforeCrlf(rest, line, j);
    }
    var line' := rest[..|line| + ReadSize(line)];
    if |line'| % 2 == 1 {
      assert '\r' in line;
      assert line == line'[..|line|];
    }
  }

  /** A complete line ends with the first CRLF of `rest`. */
  lemma LineComplete(rest: string, line: string)
    requires |line| <= |rest| && line == rest[..|line|] && |line| <= MaxHeaderLine
    requires forall j :: CrlfAt(rest, j) ==> j + 2 >= |line|
    requires FirstCrlf(line).Some?
    ensures FirstCrlf(line).value + 2 == |line| && LineOutcome(rest) == Ok(|line| - 2)
  {
    var k := FirstCrlf(line).value;
    assert CrlfAt(rest, k);
  }

  /**
   * One header line, read as the source reads it: two bytes at a time
   * until a '\r' was read, then one at a time, until the buffer holds a
   * CRLF.  Its result is LineOutcome, and the buffer keeps nothing after
   * the CRLF, so the next line starts from an empty buffer.
   */
  method ReadLine(input: string, pos: nat) returns (r: Result<string, Reason>, pos': nat, buffered: string)
    requires pos <= |input|
    ensures pos <= pos' <= |input|
    ensures r.Ok? <==> LineOutcome(input[pos..]).Ok?
    ensures r.Ok? ==>
      (var k := LineOutcome(input[pos..]).value;
       r.value == input[pos..pos + k] && pos' == pos + k + 2 && buffered == "")
    ensures r.Err? ==> LineOutcome(input[pos..]) == Err(r.error)
  {
    ghost var rest := input[pos..];
    var line := "";
    pos' := pos;
    while FirstCrlf(line).None?
      invariant pos <= pos' <= |input| && line == input[pos..pos']
      invariant |line| <= MaxHeaderLine
      invariant forall j :: CrlfAt(rest, j) ==> j + 2 >= |line|
      invariant |line| % 2 == 1 ==> '\r' in line
      decreases |input| - pos'
    {
      assert Reading(rest, line);
      var maxRead := if '\r' in line then 1 else 2;
      if pos' + maxRead > |input| {
        ReadFails(rest, line);
        return Err(ServerResponseReadFailed), pos', line;
      }
      if |line| + maxRead > MaxHeaderLine {
        ReadOverlong(rest, line);
        return Err(HeaderTooLong), pos' + maxRead, line + input[pos'..pos' + maxRead];
      }
      ReadExtends(rest, line);
      line := line + input[pos'..pos' + maxRead];
      pos' := pos' + maxRead;
    }
    LineComplete(rest, line);
    var k := FirstCrlf(line).value;
    r := Ok(line[..k]);
    buffered := line[k + 2..];
  }

  // ---------------------------------------------------------------------------
  // Header lines (rpcclient.cpp:54-87)
  // ---------------------------------------------------------------------------

  /**
   * The Content-Length read so far (-2 before the status line, -1 after it
   * until a Content-Length header) and whether "Connection: close" was seen.
   */
  datatype HeaderState = HeaderState(contentLength: int, closeAfterRead: bool)

  const InitialHeaders: HeaderState := HeaderState(-2, false)

  datatype LineStep = Next(state: HeaderState) | EndOfHeaders

  /** std::string::compare(at, |text|, text) == 0. */
  predicate HasAt(line: string, at: nat, text: string) {
    at + |text| <= |line| && line[at..at + |text|] == text
  }

  /**
   * One header line: the status line must be exactly StatusOk; a
   * Connection header must say close (any text starting so) or keep-alive;
   * a Content-Length header must be a whole non-negative int; other headers
   * are ignored; the empty line ends the header, which needs a Content-Length.
   */
  function OnHeaderLine(st: HeaderState, line: string): (r: Result<LineStep, Reason>)
    ensures st.contentLength == -2 ==> (r.Ok? <==> line == StatusOk)
    ensures r == Ok(EndOfHeaders) <==> st.contentLength >= 0 && line == ""
    ensures r.Ok? && r.value.Next? && st.contentLength >= -1 ==>
      r.value.state.contentLength == st.contentLength || r.value.state.contentLength >= 0
    ensures r.Ok? && r.value.Next? && st.contentLength >= -2 ==> r.value.state.contentLength >= -1
  {
    if st.contentLength == -2 then
      if line != StatusOk then Err(HttpError(line)) else Ok(Next(st.(contentLength := -1)))
    else if |line| > 0 then
      if ':' !in line then Err(BadHeaderLine(line))
      else if HasAt(line, 0, ConnectionPrefix) then
        if HasAt(line, |ConnectionPrefix|, "close") then Ok(Next(st.(closeAfterRead := true)))
        else if HasAt(line, |ConnectionPrefix|, "keep-alive") then Ok(Next(st))
        else Err(BadConnectionHeader(line))
      else if HasAt(line, 0, ContentLengthPrefix) then
        match Stoi(line[|ContentLengthPrefix|..])
        case None => Err(BadContentLength(line))
        case Some((v, endpos)) =>
          if v < 0 || endpos != |line| - |ContentLengthPrefix| then Err(BadContentLength(line))
          else Ok(Next(st.(contentLength := v)))
      else Ok(Next(st))
    else if st.contentLength < 0 then Err(NoContentLength)
    else Ok(EndOfHeaders)
  }

  /** A Content-Length header written as `os << n` writes it is read back as n. */
  lemma ContentLengthRoundTrip(st: HeaderState, n: nat)
    requires st.contentLength != -2 && n <= IntMax
    ensures OnHeaderLine(st, ContentLengthPrefix + DecimalString(n)) == Ok(Next(st.(contentLength := n)))
  {
    var line := ContentLengthPrefix + DecimalString(n);
    assert line[..|ContentLengthPrefix|] == ContentLengthPrefix;
    assert line[|ContentLengthPrefix|..] == DecimalString(n);
    assert line[14] == ':';
    assert !HasAt(line, 0, ConnectionPrefix) by {
      assert line[3] != ConnectionPrefix[3];
    }
    ParseDecimalString(n, IntMin, IntMax);
  }

  /** "Connection: close" asks for the connection to end after the body; "Connection: keep-alive" changes nothing. */
  lemma ConnectionHeaders(st: HeaderState)
    requires st.contentLength != -2
    ensures OnHeaderLine(st, ConnectionPrefix + "close") == Ok(Next(st.(closeAfterRead := true)))
    ensures OnHeaderLine(st, ConnectionPrefix + "keep-alive") == Ok(Next(st))
  {
    var c := ConnectionPrefix + "close";
    assert c[10] == ':' && c[..12] == ConnectionPrefix && c[12..17] == "close";
    var k := ConnectionPrefix + "keep-alive";
    assert k[10] == ':' && k[..12] == ConnectionPrefix && k[12..22] == "keep-alive";
    assert k[12..17] != "close" by {
      assert k[12] != 'c';
    }
  }

  /** The next header line at `pos`, and where the line after it starts. */
  function NextLine(input: string, pos: nat): (r: Result<(string, nat), Reason>)
    requires pos <= |input|
    ensures r.Ok? ==> pos + 2 <= r.value.1 <= |input|
  {
    var outcome := LineOutcome(input[pos..]);
    if outcome.Err? then Err(outcome.error)
    else
      assert CrlfAt(input[pos..], outcome.value);
      Ok((input[pos..pos + outcome.value], pos + outcome.value + 2))
  }

  /** The header of the response at `pos`: its final state and where its body starts. */
  function Headers(input: string, pos: nat, st: HeaderState): (r: Result<(HeaderState, nat), Reason>)
    requires pos <= |input| && st.contentLength >= -2
    ensures r.Ok? ==> r.value.0.contentLength >= 0 && pos + 2 <= r.value.1 <= |input|
    decreases |input| - pos
  {
    var next := NextLine(input, pos);
    if next.Err? then Err(next.error)
    else
      var step := OnHeaderLine(st, next.value.0);
      if step.Err? then Err(step.error)
      else if step.value.EndOfHeaders? then Ok((st, next.value.1))
      else Headers(input, next.value.1, step.value.state)
  }

  /** The header lines of `input` from `pos`, one by one, until the empty line. */
  method ReadHeaders(input: string, pos0: nat) returns (r: Result<(HeaderState, nat), Reason>)
    requires pos0 <= |input|
    ensures r == Headers(input, pos0, InitialHeaders)
  {
    var st := InitialHeaders;
    var pos := pos0;
    while true
      invariant pos0 <= pos <= |input| && st.contentLength >= -2
      invariant Headers(input, pos, st) == Headers(input, pos0, InitialHeaders)
      decreases |input| - pos
    {
      var line, pos', buffered := ReadLine(input, pos);
      if line.Err? {
        return Err(line.error);
      }
      var step := OnHeaderLine(st, line.value);
      if step.Err? {
        return Err(step.error);
      }
      if step.value.EndOfHeaders? {
        return Ok((st, pos'));
      }
      st, pos := step.value.state, pos';
    }
  }

  function Pow10(k: nat): nat {
    if k == 0 then 1 else 10 * Pow10(k - 1)
  }

  /** A number below 10^k has at most k digits. */
  lemma {:induction false} DecimalStringDigits(n: nat, k: nat)
    requires 0 < k && n < Pow10(k)
    ensures |DecimalString(n)| <= k
    decreases k
  {
    if n >= 10 {
      DecimalStringDigits(n / 10, k - 1);
    }
  }

  /** The header of a minimal successful response: its status line, its Content-Length and the empty line. */
  function ResponseHead(n: nat): string {
    StatusOk + "\r\n" + ContentLengthPrefix + DecimalString(n) + "\r\n" + "\r\n"
  }

  lemma DropPrefix(a: string, b: string)
    ensures (a + b)[|a|..] == b
  {
  }

  /** A line without '\r' followed by CRLF is the next header line. */
  lemma LineAt(input: string, pos: nat, l: string, t: string)
    requires pos <= |input| && input[pos..] == l + "\r\n" + t
    requires '\r' !in l && |l| + 2 <= MaxHeaderLine
    ensures LineOutcome(input[pos..]) == Ok(|l|)
    ensures pos + |l| + 2 <= |input| && input[pos..pos + |l|] == l
  {
    assert forall j :: !CrlfAt(l, j);
    LineOutcomeOfLine(l, t);
    assert input[pos..][..|l|] == l;
  }

  /** One header line that does not end the header. */
  lemma HeadersNextLine(input: string, pos: nat, st: HeaderState, l: string, t: string, st': HeaderState)
    requires pos <= |input| && st.contentLength >= -2
    requires input[pos..] == l + "\r\n" + t
    requires '\r' !in l && |l| + 2 <= MaxHeaderLine
    requires OnHeaderLine(st, l) == Ok(Next(st'))
    ensures pos + |l| + 2 <= |input|
    ensures Headers(input, pos, st) == Headers(input, pos + |l| + 2, st')
  {
    LineAt(input, pos, l, t);
    NextLineIs(input, pos, l);
    HeadersStep(input, pos, st, l, pos + |l| + 2, st');
  }

  /** NextLine, from its two parts. */
  lemma NextLineIs(input: string, pos: nat, line: string)
    requires pos <= |input| && LineOutcome(input[pos..]) == Ok(|line|) && pos + |line| + 2 <= |input|
    requires input[pos..pos + |line|] == line
    ensures NextLine(input, pos) == Ok((line, pos + |line| + 2))
  {
  }

  /** Headers, one line on. */
  lemma HeadersStep(input: string, pos: nat, st: HeaderState, line: string, pos': nat, st': HeaderState)
    requires pos <= |input| && st.contentLength >= -2
    requires NextLine(input, pos) == Ok((line, pos')) && OnHeaderLine(st, line) == Ok(Next(st'))
    ensures Headers(input, pos, st) == Headers(input, pos', st')
  {
  }

  lemma StatusOkHasNoCr()
    ensures '\r' !in StatusOk && |StatusOk| == 15
  {
  }

  /** The status line StatusOk. */
  lemma StatusLineStep(input: string, t: string)
    requires input == StatusOk + "\r\n" + t
    ensures Headers(input, 0, InitialHeaders) == Headers(input, |StatusOk| + 2, HeaderState(-1, false))
  {
    StatusOkHasNoCr();
    assert input[0..] == input;
    HeadersNextLine(input, 0, InitialHeaders, StatusOk, t, HeaderState(-1, false));
  }

  /** A Content-Length line holds no '\r' and fits in a header line. */
  lemma ContentLengthLineShape(n: nat)
    requires n <= IntMax
    ensures var cl := ContentLengthPrefix + DecimalString(n); '\r' !in cl && |cl| + 2 <= MaxHeaderLine
  {
    assert forall j :: 0 <= j < |DecimalString(n)| ==> IsDigit(DecimalString(n)[j]);
    assert '\r' !in ContentLengthPrefix;
    DecimalStringDigits(n, 10);
  }

  /** The empty line that ends a header with a Content-Length. */
  lemma EmptyLineStep(input: string, pre: string, st: HeaderState, t: string)
    requires st.contentLength >= 0 && input == pre + ("" + "\r\n" + t)
    ensures Headers(input, |pre|, st) == Ok((st, |pre| + 2))
  {
    DropPrefix(pre, "" + "\r\n" + t);
    LineOutcomeOfLine("", t);
    assert input[|pre|..|pre|] == "";
    NextLineIs(input, |pre|, "");
  }

  /** The ways of cutting a two-line header followed by a body. */
  lemma ResponseHeadParts(status: string, cl: string, body: string)
    ensures var input := status + "\r\n" + cl + "\r\n" + "\r\n" + body;
      && input == status + "\r\n" + (cl + "\r\n" + ("\r\n" + body))
      && input == (status + "\r\n") + (cl + "\r\n" + ("\r\n" + body))
      && input == (status + "\r\n" + (cl + "\r\n")) + ("" + "\r\n" + body)
  {
  }

  /** Such a header, followed by anything, gives Content-Length n and ends where it ends. */
  lemma HeadersOfResponseHead(n: nat, body: string)
    requires n <= IntMax
    ensures Headers(ResponseHead(n) + body, 0, InitialHeaders) == Ok((HeaderState(n, false), |ResponseHead(n)|))
  {
    var input := ResponseHead(n) + body;
    var cl := ContentLengthPrefix + DecimalString(n);
    var pre1 := StatusOk + "\r\n";
    var pre2 := pre1 + (cl + "\r\n");
    ResponseHeadParts(StatusOk, cl, body);
    var st1, st2 := HeaderState(-1, false), HeaderState(n, false);
    assert |pre1| == |StatusOk| + 2 && |pre2| == |pre1| + |cl| + 2 && |ResponseHead(n)| == |pre2| + 2;
    StatusLineStep(input, cl + "\r\n" + ("\r\n" + body));
    assert Headers(input, 0, InitialHeaders) == Headers(input, |pre1|, st1);
    assert input[|pre1|..] == cl + "\r\n" + ("\r\n" + body) by {
      DropPrefix(pre1, cl + "\r\n" + ("\r\n" + body));
    }
    ContentLengthLineShape(n);
    ContentLengthRoundTrip(st1, n);
    HeadersNextLine(input, |pre1|, st1, cl, "\r\n" + body, st2);
    assert Headers(input, |pre1|, st1) == Headers(input, |pre2|, st2);
    EmptyLineStep(input, pre2, st2, body);
    assert Headers(input, |pre2|, st2) == Ok((st2, |pre2| + 2));
  }

  // ---------------------------------------------------------------------------
  // The body (rpcclient.cpp:89-101)
  // ---------------------------------------------------------------------------

  /**
   * The body of contentLength characters at `pos`: it must fit the size
   * limit and start with ExpectedStart; the text after that prefix is
   * the result.  A Content-Length below the prefix's length is refused
   * after the prefix was read (BodyShorterThanPrefix, where the source
   * asks for a buffer of a wrapped-around size).
   */
  method ReadBody(input: string, pos: nat, contentLength: nat) returns (r: Result<string, Reason>, pos': nat)
    requires pos <= |input|
    ensures r.Ok? <==>
      contentLength <= MaxContentLength && |ExpectedStart| <= contentLength && pos + contentLength <= |input|
      && input[pos..pos + |ExpectedStart|] == ExpectedStart
    ensures r.Ok? ==> ExpectedStart + r.value == input[pos..pos + contentLength] && pos' == pos + contentLength
    ensures contentLength > MaxContentLength ==> r == Err(ResponseTooLarge)
    ensures contentLength <= MaxContentLength && pos + |ExpectedStart| > |input| ==> r == Err(ResponseReadFailed)
    ensures r == Err(NotAnObject) <==>
      contentLength <= MaxContentLength && pos + |ExpectedStart| <= |input|
      && input[pos..pos + |ExpectedStart|] != ExpectedStart
    ensures r == Err(BodyShorterThanPrefix) ==> contentLength < |ExpectedStart|
  {
    pos' := pos;
    if contentLength > MaxContentLength {
      return Err(ResponseTooLarge), pos';
    }
    if pos' + |ExpectedStart| > |input| {
      return Err(ResponseReadFailed), pos';
    }
    var start := input[pos'..pos' + |ExpectedStart|];
    pos' := pos' + |ExpectedStart|;
    if start != ExpectedStart {
      return Err(NotAnObject), pos';
    }
    if contentLength < |ExpectedStart| {
      return Err(BodyShorterThanPrefix), pos';
    }
    var rest := contentLength - |ExpectedStart|;
    if pos' + rest > |input| {
      return Err(ResponseReadFailed), pos';
    }
    r := Ok(input[pos'..pos' + rest]);
    pos' := pos' + rest;
    assert input[pos..pos + contentLength] == start + r.value;
  }
}
