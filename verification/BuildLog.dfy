/** The log of a template build in e2b-shim: the response of the build service arrives in chunks of any size; its
    lines become the log, and marker lines in it decide the outcome. */
module BuildLog {
  import opened Prelude
  import opened Scanner

  /** "=== exit " */
  const MARKER: Text := [61, 61, 61, 32, 101, 120, 105, 116, 32]
  /** "=== exit 0 ===" */
  const SUCCESS: Text := [61, 61, 61, 32, 101, 120, 105, 116, 32, 48, 32, 61, 61, 61]

  datatype Status = Building | Ready | Error

  datatype Entry = PostFailed | HttpStatus | Line(text: Text)

  /** The build service's answer. The chunks are those that come before the response ends or breaks off. */
  datatype Response = SendFailed | Response(good: bool, chunks: seq<Text>)

  predicate Contains(line: Text, pat: Text) {
    FindFrom(line, pat, 0).Some?
  }

  // ---- Cutting a stream at its newlines ----

  function Newline(s: Text): (r: Option<nat>)
    ensures r.Some? ==> r.value < |s|
  {
    if s == [] then None
    else if s[0] == LF then Some(0)
    else
      match Newline(s[1..])
      case None => None
      case Some(n) => Some(n + 1)
  }

  lemma {:induction false} NewlineIsFirst(s: Text)
    ensures Newline(s) == None ==> LF !in s
    ensures Newline(s).Some? ==>
              var n := Newline(s).value;
              LF !in s[..n] && s == s[..n] + [LF] + s[n + 1..]
  {
    if s != [] && s[0] != LF {
      NewlineIsFirst(s[1..]);
      if Newline(s[1..]).Some? {
        var n := Newline(s[1..]).value;
        assert s[..n + 1] == [s[0]] + s[1..][..n];
        assert s[n + 2..] == s[1..][n + 1..];
      }
    }
  }

  /** The lines that are complete, without their newlines. */
  function Complete(s: Text): seq<Text> {
    match Newline(s)
    case None => []
    case Some(n) => [s[..n]] + Complete(s[n + 1..])
  }

  /** What follows the last newline. */
  function Remainder(s: Text): Text {
    match Newline(s)
    case None => s
    case Some(n) => Remainder(s[n + 1..])
  }

  function Terminated(lines: seq<Text>): Text {
    if lines == [] then [] else lines[0] + [LF] + Terminated(lines[1..])
  }

  /** No line holds a newline. */
  ghost predicate Plain(lines: seq<Text>) {
    lines == [] || (LF !in lines[0] && Plain(lines[1..]))
  }

  /** Nothing is lost or moved by the cut, and no line holds a newline. */
  lemma {:induction false} CutIsExact(s: Text)
    ensures Terminated(Complete(s)) + Remainder(s) == s
    ensures LF !in Remainder(s) && Plain(Complete(s))
    decreases |s|
  {
    NewlineIsFirst(s);
    match Newline(s)
    case None =>
    case Some(n) =>
      CutIsExact(s[n + 1..]);
      CompleteStep(s, n);
      TerminatedStep(s[..n], Complete(s[n + 1..]), Remainder(s[n + 1..]));
  }

  lemma TerminatedStep(line: Text, lines: seq<Text>, rest: Text)
    ensures Terminated([line] + lines) + rest == line + [LF] + (Terminated(lines) + rest)
    ensures LF !in line && Plain(lines) ==> Plain([line] + lines)
  {
    assert ([line] + lines)[1..] == lines;
  }

  lemma CompleteStep(s: Text, n: nat)
    requires Newline(s) == Some(n)
    ensures Complete(s) == [s[..n]] + Complete(s[n + 1..]) && Complete(s)[1..] == Complete(s[n + 1..])
    ensures Remainder(s) == Remainder(s[n + 1..])
  {
  }

  lemma {:induction false} NewlineAt(line: Text, rest: Text)
    requires LF !in line
    ensures Newline(line + [LF] + rest) == Some(|line|)
  {
    if line == [] {
      assert line + [LF] + rest == [LF] + rest;
    } else {
      assert (line + [LF] + rest)[1..] == line[1..] + [LF] + rest;
      NewlineAt(line[1..], rest);
    }
  }

  lemma {:induction false} NoNewline(s: Text)
    requires LF !in s
    ensures Newline(s) == None
  {
    if s != [] {
      assert s[0] in s;
      NoNewline(s[1..]);
    }
  }

  lemma FirstCut(line: Text, more: Text)
    requires LF !in line
    ensures var s := line + [LF] + more;
            Complete(s) == [line] + Complete(more) && Remainder(s) == Remainder(more)
  {
    var s := line + [LF] + more;
    NewlineAt(line, more);
    CompleteStep(s, |line|);
    assert s[..|line|] == line && s[|line| + 1..] == more;
  }

  /** It is the only such cut: lines without newlines and a remainder without one are found again. */
  lemma {:induction false} CutIsUnique(lines: seq<Text>, rest: Text)
    requires LF !in rest && Plain(lines)
    ensures Complete(Terminated(lines) + rest) == lines && Remainder(Terminated(lines) + rest) == rest
  {
    var s := Terminated(lines) + rest;
    if lines == [] {
      assert s == rest;
      NoNewline(rest);
    } else {
      var more := Terminated(lines[1..]) + rest;
      assert s == lines[0] + [LF] + more;
      CutIsUnique(lines[1..], rest);
      FirstCut(lines[0], more);
      assert lines == [lines[0]] + lines[1..];
    }
  }

  /** Cutting may stop anywhere and go on with what remained. */
  lemma {:induction false} CutInTwo(a: Text, b: Text)
    ensures Complete(a + b) == Complete(a) + Complete(Remainder(a) + b)
    ensures Remainder(a + b) == Remainder(Remainder(a) + b)
    decreases |a|
  {
    match Newline(a)
    case None =>
    case Some(n) =>
      CutInTwo(a[n + 1..], b);
      var c, d := Complete(a[n + 1..]), Complete(Remainder(a[n + 1..]) + b);
      CutAfterLine(a, b, n, c, d);
  }

  lemma CutAfterLine(a: Text, b: Text, n: nat, c: seq<Text>, d: seq<Text>)
    requires Newline(a) == Some(n) && Complete(a[n + 1..]) == c && Complete(a[n + 1..] + b) == c + d
    ensures Complete(a + b) == Complete(a) + d
    ensures Remainder(a) == Remainder(a[n + 1..]) && Remainder(a + b) == Remainder(a[n + 1..] + b)
  {
    FirstLineKept(a, b, n);
    CompleteStep(a, n);
    Regroup(a[..n], c, d);
  }

  lemma FirstLineKept(a: Text, b: Text, n: nat)
    requires Newline(a) == Some(n)
    ensures Complete(a + b) == [a[..n]] + Complete(a[n + 1..] + b)
    ensures Remainder(a + b) == Remainder(a[n + 1..] + b)
  {
    NewlineKept(a, b, n);
    CompleteStep(a + b, n);
  }

  lemma Regroup(line: Text, c: seq<Text>, d: seq<Text>)
    ensures [line] + (c + d) == ([line] + c) + d
  {
  }

  lemma NewlineKept(a: Text, b: Text, n: nat)
    requires Newline(a) == Some(n)
    ensures Newline(a + b) == Some(n) && (a + b)[..n] == a[..n] && (a + b)[n + 1..] == a[n + 1..] + b
  {
    NewlineIsFirst(a);
    assert a + b == a[..n] + [LF] + (a[n + 1..] + b);
    NewlineAt(a[..n], a[n + 1..] + b);
  }

  // ---- What a build comes to ----

  function Entries(lines: seq<Text>): seq<Entry> {
    if lines == [] then [] else Entries(lines[..|lines| - 1]) + [Line(lines[|lines| - 1])]
  }

  lemma {:induction false} EntriesConcat(a: seq<Text>, b: seq<Text>)
    ensures Entries(a + b) == Entries(a) + Entries(b)
    decreases |b|
  {
    if b == [] {
      assert a + b == a;
    } else {
      assert (a + b)[..|a + b| - 1] == a + b[..|b| - 1];
      EntriesConcat(a, b[..|b| - 1]);
    }
  }

  /** Index `k` holds the last marker line. */
  ghost predicate LastMarker(lines: seq<Text>, k: nat) {
    k < |lines| && Contains(lines[k], MARKER) && forall j | k < j < |lines| :: !Contains(lines[j], MARKER)
  }

  /** What a build should come to, from the whole response. */
  ghost predicate Succeeds(good: bool, stream: Text) {
    var lines := Complete(stream);
    && good
    && forall k: nat | LastMarker(lines, k) :: Contains(lines[k], SUCCESS)
  }

  function LogOf(good: bool, stream: Text): seq<Entry> {
    (if good then [] else [HttpStatus])
    + Entries(Complete(stream))
    + (if Remainder(stream) != [] then [Line(Remainder(stream))] else [])
  }

  /** The status after the lines so far. */
  function Verdict(good: bool, lines: seq<Text>): Status {
    if lines == [] then Building
    else
      var last := lines[|lines| - 1];
      if !Contains(last, MARKER) then Verdict(good, lines[..|lines| - 1])
      else if Contains(last, SUCCESS) && good then Ready
      else Error
  }

  /** The final status, where building has become ready or failed. */
  function Final(good: bool, status: Status): Status {
    if status != Building then status else if good then Ready else Error
  }

  lemma {:induction false} VerdictIsLastMarker(good: bool, lines: seq<Text>)
    ensures Verdict(good, lines) == Building ==> forall k: nat :: !LastMarker(lines, k)
    ensures Verdict(good, lines) != Building ==> exists k: nat ::
              LastMarker(lines, k) && (Verdict(good, lines) == Ready <==> good && Contains(lines[k], SUCCESS))
    decreases |lines|
  {
    if lines != [] {
      var before, n := lines[..|lines| - 1], |lines| - 1;
      VerdictIsLastMarker(good, before);
      if Contains(lines[n], MARKER) {
        assert LastMarker(lines, n);
      } else {
        forall k: nat ensures LastMarker(lines, k) <==> LastMarker(before, k) {
        }
      }
    }
  }

  lemma OneLastMarker(lines: seq<Text>, j: nat, k: nat)
    requires LastMarker(lines, j) && LastMarker(lines, k)
    ensures j == k
  {
  }

  /** The build ends ready exactly when the response was good and the last marker among its complete lines,
      if there is one, says that the exit code was 0. */
  lemma ReadyExactlyWhen(good: bool, stream: Text)
    ensures Final(good, Verdict(good, Complete(stream))) == if Succeeds(good, stream) then Ready else Error
  {
    var lines := Complete(stream);
    VerdictIsLastMarker(good, lines);
    if Verdict(good, lines) != Building {
      var k: nat :| LastMarker(lines, k) && (Verdict(good, lines) == Ready <==> good && Contains(lines[k], SUCCESS));
      forall j: nat | LastMarker(lines, j) ensures j == k {
        OneLastMarker(lines, j, k);
      }
    }
  }

  // ---- Markers and exit codes ----

  function Digits(n: nat): (t: Text)
    ensures t != [] && forall c | c in t :: 48 <= c <= 57
  {
    if n < 10 then [48 + n] else Digits(n / 10) + [48 + n % 10]
  }

  function Decimal(code: int): (t: Text)
    ensures t != [] && forall c | c in t :: c == 45 || 48 <= c <= 57
  {
    if code < 0 then [45] + Digits(-code) else Digits(code)
  }

  function MarkerLine(code: int): Text {
    Ascii("=== exit ") + Decimal(code) + Ascii(" ===")
  }

  lemma Markers()
    ensures MARKER == Ascii("=== exit ") && SUCCESS == MARKER + [48, 32, 61, 61, 61]
    ensures Ascii(" ===") == [32, 61, 61, 61]
  {
  }

  lemma {:induction false} OnlyZeroIsZero(code: int)
    ensures Decimal(code) == [48] <==> code == 0
  {
    if code >= 10 {
      assert |Digits(code)| == |Digits(code / 10)| + 1;
    } else if code < 0 {
      assert |Decimal(code)| == 1 + |Digits(-code)|;
    }
  }

  /** The letter e occurs in a marker line once, so the success marker can only be found at its start. */
  lemma FoundAtStart(line: Text, digits: Text, k: nat)
    requires line == MARKER + digits + [32, 61, 61, 61] && (forall c | c in digits :: c == 45 || 48 <= c <= 57)
    requires MatchAt(line, SUCCESS, k)
    ensures k == 0
  {
    assert line[k + 4] == line[k..k + |SUCCESS|][4] == 101;
    assert forall i | |MARKER| <= i < |MARKER| + |digits| :: line[i] in digits;
  }

  lemma ZeroAtStart(line: Text, digits: Text)
    requires line == MARKER + digits + [32, 61, 61, 61] && (forall c | c in digits :: c == 45 || 48 <= c <= 57)
    requires digits != []
    ensures MatchAt(line, SUCCESS, 0) <==> digits == [48]
  {
    assert line[9] == digits[0] && (|digits| > 1 ==> line[10] == digits[1] && digits[1] in digits);
    if MatchAt(line, SUCCESS, 0) {
      assert SUCCESS[9] == 48 && SUCCESS[10] == 32;
      assert line[9] == line[0..|SUCCESS|][9] && line[10] == line[0..|SUCCESS|][10];
    }
    if digits == [48] {
      assert line[0..|SUCCESS|] == SUCCESS;
    }
  }

  /** A marker line is one for every exit code, and says success for 0 alone. */
  lemma MarkerSaysCode(code: int)
    ensures Contains(MarkerLine(code), MARKER)
    ensures Contains(MarkerLine(code), SUCCESS) <==> code == 0
  {
    var line, digits := MarkerLine(code), Decimal(code);
    Markers();
    assert line[0..|MARKER|] == MARKER;
    FirstIs(line, MARKER, 0, 0);
    OnlyZeroIsZero(code);
    ZeroAtStart(line, digits);
    FindsFirst(line, SUCCESS, 0);
    if Contains(line, SUCCESS) {
      FoundAtStart(line, digits, FindFrom(line, SUCCESS, 0).value);
    }
  }

  ghost predicate Unmarked(lines: seq<Text>) {
    forall line | line in lines :: !Contains(line, MARKER)
  }

  /** A good response whose one marker line names an exit code makes a ready build exactly when that code is 0. */
  lemma ReadyExactlyOnExitZero(before: seq<Text>, code: int, after: seq<Text>, rest: Text)
    requires Unmarked(before) && Unmarked(after) && LF !in rest && Plain(before + [MarkerLine(code)] + after)
    ensures var stream := Terminated(before + [MarkerLine(code)] + after) + rest;
            Final(true, Verdict(true, Complete(stream))) == if code == 0 then Ready else Error
  {
    var lines := before + [MarkerLine(code)] + after;
    var stream := Terminated(lines) + rest;
    CutIsUnique(lines, rest);
    MarkerSaysCode(code);
    ReadyExactlyWhen(true, stream);
    LastIs(before, MarkerLine(code), after);
    if code != 0 {
      assert LastMarker(lines, |before|);
    }
  }

  lemma LastIs(before: seq<Text>, line: Text, after: seq<Text>)
    requires Unmarked(after) && Contains(line, MARKER)
    ensures var lines := before + [line] + after;
            lines[|before|] == line && forall k: nat :: LastMarker(lines, k) <==> k == |before|
  {
    var lines := before + [line] + after;
    assert forall j | |before| < j < |lines| :: lines[j] in after;
  }

  // ---- The log ----

  lemma {:induction false} EntriesAt(lines: seq<Text>, k: nat)
    requires k < |lines|
    ensures |Entries(lines)| == |lines| && Entries(lines)[k] == Line(lines[k])
  {
    if |lines| > 1 {
      EntriesAt(lines[..|lines| - 1], if k < |lines| - 1 then k else 0);
    }
  }

  lemma TerminatedMore(lines: seq<Text>, line: Text)
    ensures Terminated(lines + [line]) == Terminated(lines) + line + [LF]
    decreases |lines|
  {
    if lines == [] {
      assert [line][1..] == [] && [] + [line] == [line];
    } else {
      TerminatedMore(lines[1..], line);
      assert (lines + [line])[1..] == lines[1..] + [line];
    }
  }

  /** The notes, then the lines. */
  ghost predicate Logged(log: seq<Entry>, notes: seq<Entry>, lines: seq<Text>) {
    && |log| == |notes| + |lines| && notes <= log
    && forall k | 0 <= k < |lines| :: log[|notes| + k] == Line(lines[k])
  }

  /** The log holds the whole response, each line once and in order, after a note on a bad status: `lines`, each
      with its newline, make up the response again, but for a newline that the response did not end in. */
  lemma LogIsTheResponse(good: bool, stream: Text) returns (lines: seq<Text>)
    ensures Terminated(lines) == if stream == [] || stream[|stream| - 1] == LF then stream else stream + [LF]
    ensures Logged(LogOf(good, stream), if good then [] else [HttpStatus], lines)
  {
    var complete, rest := Complete(stream), Remainder(stream);
    CutIsExact(stream);
    LastNewline(complete, rest, stream);
    WithNewline(Terminated(complete), rest, stream);
    lines := if rest == [] then complete else complete + [rest];
    AllLines(good, stream, complete, rest);
    LogLines(LogOf(good, stream), if good then [] else [HttpStatus], lines);
  }

  lemma WithNewline(t: Text, rest: Text, stream: Text)
    requires t + rest == stream && (rest == [] <==> stream == [] || stream[|stream| - 1] == LF)
    ensures t + (if rest == [] then [] else rest + [LF])
         == if stream == [] || stream[|stream| - 1] == LF then stream else stream + [LF]
  {
  }

  lemma AllLines(good: bool, stream: Text, complete: seq<Text>, rest: Text)
    requires complete == Complete(stream) && rest == Remainder(stream)
    ensures var lines := if rest == [] then complete else complete + [rest];
            && Terminated(lines) == Terminated(complete) + (if rest == [] then [] else rest + [LF])
            && LogOf(good, stream) == (if good then [] else [HttpStatus]) + Entries(lines)
  {
    TerminatedMore(complete, rest);
    EntriesNext(complete, rest);
    assert Terminated(complete) + [] == Terminated(complete);
  }

  lemma LogLines(log: seq<Entry>, notes: seq<Entry>, lines: seq<Text>)
    requires log == notes + Entries(lines)
    ensures Logged(log, notes, lines)
  {
    EntriesLength(lines);
    forall k | 0 <= k < |lines| ensures Entries(lines)[k] == Line(lines[k]) {
      EntriesAt(lines, k);
    }
  }

  lemma {:induction false} EntriesLength(lines: seq<Text>)
    ensures |Entries(lines)| == |lines|
  {
    if lines != [] {
      EntriesAt(lines, 0);
    }
  }

  /** The text ends in a newline exactly when nothing remains after its complete lines. */
  lemma LastNewline(lines: seq<Text>, rest: Text, stream: Text)
    requires Terminated(lines) + rest == stream && LF !in rest
    ensures rest == [] <==> stream == [] || stream[|stream| - 1] == LF
  {
    if rest != [] {
      assert stream[|stream| - 1] == rest[|rest| - 1] && rest[|rest| - 1] in rest;
    } else if lines != [] {
      var n := |lines| - 1;
      assert lines == lines[..n] + [lines[n]];
      TerminatedMore(lines[..n], lines[n]);
    }
  }

  /** A response that breaks off within its marker line, although that line says exit 1, makes a ready build. */
  lemma BrokenOffMarkerIsReady()
    ensures exists last: Text :: Contains(last, MARKER) && !Contains(last, SUCCESS) && Succeeds(true, last)
  {
    var last := MARKER + [49];
    NoNewline(last);
    assert last[0..|MARKER|] == MARKER;
    FirstIs(last, MARKER, 0, 0);
    assert Contains(last, MARKER) && !Contains(last, SUCCESS);
    assert Complete(last) == [];
    assert Succeeds(true, last);
  }

  lemma VerdictNext(good: bool, lines: seq<Text>, line: Text)
    ensures Verdict(good, lines + [line]) ==
            if !Contains(line, MARKER) then Verdict(good, lines)
            else if Contains(line, SUCCESS) && good then Ready else Error
  {
    assert (lines + [line])[..|lines + [line]| - 1] == lines;
  }

  lemma EntriesNext(lines: seq<Text>, line: Text)
    ensures Entries(lines + [line]) == Entries(lines) + [Line(line)]
  {
    assert (lines + [line])[..|lines + [line]| - 1] == lines;
  }

  lemma TakenSoFar(buf: Text, nl: nat, lines: seq<Text>, done: seq<Text>)
    requires Newline(buf) == Some(nl)
    ensures done + Complete(buf) == (done + [buf[..nl]]) + Complete(buf[nl + 1..])
    ensures Remainder(buf) == Remainder(buf[nl + 1..])
    ensures lines + (done + [buf[..nl]]) == lines + done + [buf[..nl]]
    ensures Entries(done + [buf[..nl]]) == Entries(done) + [Line(buf[..nl])]
  {
    CompleteStep(buf, nl);
    EntriesNext(done, buf[..nl]);
  }

  lemma OneMoreChunk(chunks: seq<Text>, k: nat, start: seq<Entry>)
    requires k < |chunks|
    ensures var before, after := Concat(chunks[..k]), Concat(chunks[..k + 1]);
            && Complete(after) == Complete(before) + Complete(Remainder(before) + chunks[k])
            && Remainder(after) == Remainder(Remainder(before) + chunks[k])
            && start + Entries(Complete(after))
               == (start + Entries(Complete(before))) + Entries(Complete(Remainder(before) + chunks[k]))
  {
    var before := Concat(chunks[..k]);
    assert chunks[..k + 1] == chunks[..k] + [chunks[k]];
    ConcatMore(chunks[..k], chunks[k]);
    CutInTwo(before, chunks[k]);
    EntriesConcat(Complete(before), Complete(Remainder(before) + chunks[k]));
  }

  lemma LogInOrder(start: seq<Entry>, good: bool, stream: Text)
    ensures var more := (if good then start else start + [HttpStatus]) + Entries(Complete(stream));
            start + LogOf(good, stream) == if Remainder(stream) == [] then more else more + [Line(Remainder(stream))]
  {
  }

  class TemplateBuild {
    var status: Status
    var logs: seq<Entry>

    constructor ()
      ensures status == Building && logs == []
    {
      status := Building;
      logs := [];
    }

    /** One complete line: it may settle the status, and it is logged. */
    method TakeLine(good: bool, line: Text, ghost lines: seq<Text>)
      requires status == Verdict(good, lines)
      modifies this
      ensures status == Verdict(good, lines + [line])
      ensures logs == old(logs) + [Line(line)]
    {
      VerdictNext(good, lines, line);
      if Contains(line, MARKER) {
        var exitOk := Contains(line, SUCCESS);
        status := if exitOk && good then Ready else Error;
      }
      logs := logs + [Line(line)];
    }

    /** One chunk: the lines it completes are taken, the rest waits in the buffer. */
    method TakeChunk(good: bool, pending: Text, chunk: Text, ghost lines: seq<Text>) returns (buf: Text)
      requires status == Verdict(good, lines)
      modifies this
      ensures buf == Remainder(pending + chunk)
      ensures status == Verdict(good, lines + Complete(pending + chunk))
      ensures logs == old(logs) + Entries(Complete(pending + chunk))
    {
      buf := pending + chunk;
      ghost var done: seq<Text> := [];
      assert lines + done == lines;
      assert Complete(pending + chunk) == done + Complete(buf);
      while Newline(buf).Some?
        invariant Remainder(buf) == Remainder(pending + chunk)
        invariant Complete(pending + chunk) == done + Complete(buf)
        invariant status == Verdict(good, lines + done)
        invariant logs == old(logs) + Entries(done)
        decreases |buf|
      {
        var nl := Newline(buf).value;
        TakenSoFar(buf, nl, lines, done);
        var line := buf[..nl];
        buf := buf[nl + 1..];
        TakeLine(good, line, lines + done);
        done := done + [line];
      }
      assert done == Complete(pending + chunk);
    }

    /** All chunks, in turn. */
    method TakeChunks(good: bool, chunks: seq<Text>) returns (buf: Text)
      requires status == Building
      modifies this
      ensures buf == Remainder(Concat(chunks))
      ensures status == Verdict(good, Complete(Concat(chunks)))
      ensures logs == old(logs) + Entries(Complete(Concat(chunks)))
    {
      buf := [];
      ghost var lines: seq<Text> := [];
      ghost var start := logs;
      assert start + [] == start;
      for k := 0 to |chunks|
        invariant buf == Remainder(Concat(chunks[..k])) && lines == Complete(Concat(chunks[..k]))
        invariant status == Verdict(good, lines)
        invariant logs == start + Entries(lines)
      {
        OneMoreChunk(chunks, k, start);
        ghost var more := Complete(buf + chunks[k]);
        buf := TakeChunk(good, buf, chunks[k], lines);
        lines := lines + more;
      }
      assert chunks[..|chunks|] == chunks;
    }

    /** The whole build: whatever the chunks, the log and the status are those of the whole response. */
    method Run(response: Response)
      requires status == Building
      modifies this
      ensures response.SendFailed? ==> status == Error && logs == old(logs) + [PostFailed]
      ensures response.Response? ==>
                && status == (if Succeeds(response.good, Concat(response.chunks)) then Ready else Error)
                && logs == old(logs) + LogOf(response.good, Concat(response.chunks))
    {
      if response.SendFailed? {
        status := Error;
        logs := logs + [PostFailed];
        return;
      }
      var good := response.good;
      ghost var stream := Concat(response.chunks);
      LogInOrder(old(logs), good, stream);
      ReadyExactlyWhen(good, stream);
      if !good {
        logs := logs + [HttpStatus];
      }
      var buf := TakeChunks(good, response.chunks);
      if buf != [] {
        logs := logs + [Line(buf)];
      }
      if status == Building {
        status := if good then Ready else Error;
      }
    }
  }
}
