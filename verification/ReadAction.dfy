/** The `read` action on one process: drain both streams and, when there was nothing at all and the caller is
    willing to wait, drain both once more; then look at the process. */
module ReadAction {
  import opened Prelude
  import opened OutputTracks
  import B = StreamBuffer
  import S = ProcessSession

  /** What happens while the reader is at an await point: output arrives, the child ends, and the wait task
      closes the streams. */
  datatype Meanwhile = Meanwhile(out: seq<byte>, err: seq<byte>, ends: Option<S.WaitResult>,
                                 closesOut: bool, closesErr: bool)

  datatype World = World(process: S.ProcessState, out: Track, err: Track)

  datatype ReadReply = ReadReply(stdout: seq<byte>, stderr: seq<byte>, eofOut: bool, eofErr: bool, truncated: bool,
                                 running: bool, code: Option<int>)

  /** The buffers hold parts of their streams. */
  ghost predicate Backed(w: World) {
    |w.out.buf.bytes| <= |w.out.stream| && |w.err.buf.bytes| <= |w.err.stream|
  }

  function Passing(cap: nat, t: Track, bytes: seq<byte>, closes: bool): (t': Track)
    ensures |t.buf.bytes| <= |t.stream| ==> |t'.buf.bytes| <= |t'.stream|
  {
    var t' := Push(cap, t, bytes);
    if closes then Close(t') else t'
  }

  function AfterEnd(p: S.ProcessState, ends: Option<S.WaitResult>): S.ProcessState {
    if p == S.Running && ends.Some? then S.FinalState(ends.value) else p
  }

  /** The wait task records the state before it closes the streams. */
  function Elapse(cap: nat, w: World, m: Meanwhile): (w': World)
    ensures Backed(w) ==> Backed(w')
  {
    var p := AfterEnd(w.process, m.ends);
    World(p, Passing(cap, w.out, m.out, m.closesOut && p != S.Running),
          Passing(cap, w.err, m.err, m.closesErr && p != S.Running))
  }

  datatype Drained = Drained(world: World, out: Reply, err: Reply)

  function DrainBoth(cap: nat, w: World, max: Option<nat>, between: Meanwhile): (d: Drained)
    requires Backed(w)
    ensures Backed(d.world)
  {
    var (out, o) := Drain(w.out, max);
    var w' := Elapse(cap, w.(out := out), between);
    var (err, e) := Drain(w'.err, max);
    Drained(w'.(err := err), o, e)
  }

  predicate NothingYet(d: Drained) {
    d.out.bytes == [] && d.err.bytes == [] && !d.out.eof && !d.err.eof
  }

  /** The last look at the process, and the reply. */
  function Finish(w: World, o: Reply, e: Reply, truncated: bool): ReadReply {
    var seen := S.Glance(0, S.Brief, w.process);
    ReadReply(o.bytes, e.bytes, o.eof, e.eof, truncated, seen.running, seen.code)
  }

  function Read(cap: nat, w: World, max: Option<nat>, waits: bool,
                first: Meanwhile, waiting: Meanwhile, second: Meanwhile, last: Meanwhile): (r: (World, ReadReply))
    requires Backed(w)
    ensures Backed(r.0)
  {
    var d := DrainBoth(cap, w, max, first);
    var lost := d.out.truncated || d.err.truncated;
    if NothingYet(d) && waits then
      var d' := DrainBoth(cap, Elapse(cap, d.world, waiting), max, second);
      var end := Elapse(cap, d'.world, last);
      (end, Finish(end, d'.out, d'.err, lost || d'.out.truncated || d'.err.truncated))
    else
      var end := Elapse(cap, d.world, last);
      (end, Finish(end, d.out, d.err, lost))
  }

  // ---- Nothing is lost ----

  ghost predicate Sound(cap: nat, w: World) {
    Accurate(cap, w.out) && Accurate(cap, w.err)
  }

  /** Only output arrived. */
  ghost predicate Later(t: Track, t': Track) {
    t.stream <= t'.stream && t'.pos == t.pos
  }

  /** From `t` to `t'` a reader was handed the slice of the stream from `start` to the new read position. */
  ghost predicate Hands(t: Track, t': Track, bytes: seq<byte>, start: nat) {
    t.stream <= t'.stream && t.pos <= start <= t'.pos <= |t'.stream| && bytes == t'.stream[start..t'.pos]
  }

  lemma PassingAccurate(cap: nat, t: Track, bytes: seq<byte>, closes: bool)
    requires Accurate(cap, t)
    ensures Accurate(cap, Passing(cap, t, bytes, closes)) && Later(t, Passing(cap, t, bytes, closes))
  {
    PushAccurate(cap, t, bytes);
  }

  lemma ElapseSound(cap: nat, w: World, m: Meanwhile)
    requires Sound(cap, w)
    ensures var w' := Elapse(cap, w, m); Sound(cap, w') && Later(w.out, w'.out) && Later(w.err, w'.err)
  {
    var p := AfterEnd(w.process, m.ends);
    PassingAccurate(cap, w.out, m.out, m.closesOut && p != S.Running);
    PassingAccurate(cap, w.err, m.err, m.closesErr && p != S.Running);
  }

  lemma DrainHands(cap: nat, t: Track, max: Option<nat>) returns (start: nat)
    requires Accurate(cap, t)
    ensures var (t', r) := Drain(t, max);
            Accurate(cap, t') && Hands(t, t', r.bytes, start) && Reports(cap, r, t.pos, start)
  {
    start := DrainAccurate(cap, t, max);
  }

  lemma HandsThenLater(t: Track, t1: Track, t2: Track, bytes: seq<byte>, start: nat)
    requires Hands(t, t1, bytes, start) && Later(t1, t2)
    ensures Hands(t, t2, bytes, start)
  {
    assert t2.stream == t1.stream + t2.stream[|t1.stream|..];
    SliceOfLonger(t1.stream, t2.stream[|t1.stream|..], start, t1.pos);
  }

  lemma LaterThenHands(t: Track, t1: Track, t2: Track, bytes: seq<byte>, start: nat)
    requires Later(t, t1) && Hands(t1, t2, bytes, start)
    ensures Hands(t, t2, bytes, start)
  {
  }

  /** An empty-handed drain followed by another: the second slice is all there is, and either drain's
      truncation shows up in the gap before it. */
  lemma HandsNothingThen(t: Track, t1: Track, t2: Track, start1: nat, bytes: seq<byte>, start2: nat)
    requires Hands(t, t1, [], start1) && Hands(t1, t2, bytes, start2)
    ensures Hands(t, t2, bytes, start2)
    ensures t.pos < start2 <==> t.pos < start1 || t1.pos < start2
  {
  }

  /** Both replies are the slices the drains took, and report exactly the gaps before them. */
  ghost predicate Takes(cap: nat, w: World, d: Drained, startOut: nat, startErr: nat) {
    && Hands(w.out, d.world.out, d.out.bytes, startOut) && Reports(cap, d.out, w.out.pos, startOut)
    && Hands(w.err, d.world.err, d.err.bytes, startErr) && Reports(cap, d.err, w.err.pos, startErr)
  }

  lemma DrainBothTakes(cap: nat, w: World, max: Option<nat>, between: Meanwhile) returns (startOut: nat, startErr: nat)
    requires Sound(cap, w)
    ensures var d := DrainBoth(cap, w, max, between); Sound(cap, d.world) && Takes(cap, w, d, startOut, startErr)
  {
    startOut := DrainHands(cap, w.out, max);
    var (out, o) := Drain(w.out, max);
    var w1 := w.(out := out);
    ElapseSound(cap, w1, between);
    var w2 := Elapse(cap, w1, between);
    HandsThenLater(w.out, out, w2.out, o.bytes, startOut);
    startErr := DrainHands(cap, w2.err, max);
    var (err, e) := Drain(w2.err, max);
    LaterThenHands(w.err, w2.err, err, e.bytes, startErr);
  }

  /** What a whole read takes. */
  ghost predicate Hears(cap: nat, w: World, w': World, r: ReadReply, startOut: nat, startErr: nat) {
    && Hands(w.out, w'.out, r.stdout, startOut) && Hands(w.err, w'.err, r.stderr, startErr)
    && AllReported(cap, w, startOut, startErr, r.truncated)
  }

  /** The gaps before the slices and the report of them: with a capacity, it is made exactly when there is a
      gap; without one, there is none. */
  ghost predicate AllReported(cap: nat, w: World, startOut: nat, startErr: nat, truncated: bool) {
    if cap == 0 then w.out.pos == startOut && w.err.pos == startErr
    else truncated <==> w.out.pos < startOut || w.err.pos < startErr
  }

  lemma TakesThenEnds(cap: nat, w: World, d: Drained, startOut: nat, startErr: nat, last: Meanwhile)
    requires Sound(cap, d.world) && Takes(cap, w, d, startOut, startErr)
    ensures var end := Elapse(cap, d.world, last);
            && Sound(cap, end)
            && Hears(cap, w, end, Finish(end, d.out, d.err, d.out.truncated || d.err.truncated), startOut, startErr)
  {
    ElapseSound(cap, d.world, last);
    var end := Elapse(cap, d.world, last);
    HandsThenLater(w.out, d.world.out, end.out, d.out.bytes, startOut);
    HandsThenLater(w.err, d.world.err, end.err, d.err.bytes, startErr);
  }

  /** A second pair of drains after an empty-handed first one. */
  lemma SecondTakes(cap: nat, w: World, d: Drained, s1: nat, e1: nat, waiting: Meanwhile, max: Option<nat>,
                    second: Meanwhile)
    returns (startOut: nat, startErr: nat)
    requires Sound(cap, d.world) && Takes(cap, w, d, s1, e1) && d.out.bytes == [] && d.err.bytes == []
    ensures var d' := DrainBoth(cap, Elapse(cap, d.world, waiting), max, second);
            && Sound(cap, d'.world)
            && Hands(w.out, d'.world.out, d'.out.bytes, startOut) && Hands(w.err, d'.world.err, d'.err.bytes, startErr)
            && AllReported(cap, w, startOut, startErr,
                           d.out.truncated || d.err.truncated || d'.out.truncated || d'.err.truncated)
  {
    ElapseSound(cap, d.world, waiting);
    var w1 := Elapse(cap, d.world, waiting);
    HandsThenLater(w.out, d.world.out, w1.out, [], s1);
    HandsThenLater(w.err, d.world.err, w1.err, [], e1);
    startOut, startErr := DrainBothTakes(cap, w1, max, second);
    var d' := DrainBoth(cap, w1, max, second);
    HandsNothingThen(w.out, w1.out, d'.world.out, s1, d'.out.bytes, startOut);
    HandsNothingThen(w.err, w1.err, d'.world.err, e1, d'.err.bytes, startErr);
  }

  lemma SecondEnds(cap: nat, w: World, d: Drained, startOut: nat, startErr: nat, lost: bool, last: Meanwhile)
    requires Sound(cap, d.world)
    requires Hands(w.out, d.world.out, d.out.bytes, startOut) && Hands(w.err, d.world.err, d.err.bytes, startErr)
    requires AllReported(cap, w, startOut, startErr, lost)
    ensures var end := Elapse(cap, d.world, last);
            Sound(cap, end) && Hears(cap, w, end, Finish(end, d.out, d.err, lost), startOut, startErr)
  {
    ElapseSound(cap, d.world, last);
    var end := Elapse(cap, d.world, last);
    HandsThenLater(w.out, d.world.out, end.out, d.out.bytes, startOut);
    HandsThenLater(w.err, d.world.err, end.err, d.err.bytes, startErr);
  }

  /** A read loses nothing: on each stream its reply is exactly the slice its one or two drains took. With a
      capacity it reports truncation exactly when bytes before one of the slices are lost; without one, none
      are. */
  lemma ReadLosesNothing(cap: nat, w: World, max: Option<nat>, waits: bool,
                         first: Meanwhile, waiting: Meanwhile, second: Meanwhile, last: Meanwhile)
    returns (startOut: nat, startErr: nat)
    requires Sound(cap, w)
    ensures var (w', r) := Read(cap, w, max, waits, first, waiting, second, last);
            Sound(cap, w') && Hears(cap, w, w', r, startOut, startErr)
  {
    startOut, startErr := DrainBothTakes(cap, w, max, first);
    var d := DrainBoth(cap, w, max, first);
    if NothingYet(d) && waits {
      startOut, startErr := SecondTakes(cap, w, d, startOut, startErr, waiting, max, second);
      var d' := DrainBoth(cap, Elapse(cap, d.world, waiting), max, second);
      SecondEnds(cap, w, d', startOut, startErr,
                 d.out.truncated || d.err.truncated || d'.out.truncated || d'.err.truncated, last);
    } else {
      TakesThenEnds(cap, w, d, startOut, startErr, last);
    }
  }

  // ---- What the reply says ----

  /** A drain of the stream with this limit would return nothing, and no end of file. */
  predicate HasNothing(t: Track, max: Option<nat>) {
    (t.buf.bytes == [] || max == Some(0)) && !(t.buf.closed && t.buf.bytes == [])
  }

  lemma DrainDraws(t: Track, max: Option<nat>, r: Reply)
    requires |t.buf.bytes| <= |t.stream| && r == Drain(t, max).1
    ensures Drawn(t, max, r.bytes, r.eof) && (r.bytes == [] && !r.eof <==> HasNothing(t, max))
  {
    DrainTakesWhatIsAllowed(t, max);
    DrawnNothing(t, max, r);
  }

  lemma DrainedAre(cap: nat, w: World, max: Option<nat>, between: Meanwhile)
    requires Backed(w)
    ensures var d, later := DrainBoth(cap, w, max, between), Elapse(cap, w, between);
            d.out == Drain(w.out, max).1 && d.err == Drain(later.err, max).1
  {
  }

  /** One pair of drains, each stream as it is when its turn comes. */
  lemma DrainBothDraws(cap: nat, w: World, max: Option<nat>, between: Meanwhile)
    requires Backed(w)
    ensures var d, later := DrainBoth(cap, w, max, between), Elapse(cap, w, between);
            && Drawn(w.out, max, d.out.bytes, d.out.eof) && Drawn(later.err, max, d.err.bytes, d.err.eof)
            && (NothingYet(d) <==> HasNothing(w.out, max) && HasNothing(later.err, max))
  {
    var d := DrainBoth(cap, w, max, between);
    DrainedAre(cap, w, max, between);
    DrainDraws(w.out, max, d.out);
    DrainDraws(Elapse(cap, w, between).err, max, d.err);
  }

  lemma DrawnNothing(t: Track, max: Option<nat>, r: Reply)
    requires Drawn(t, max, r.bytes, r.eof)
    ensures r.bytes == [] && !r.eof <==> HasNothing(t, max)
  {
  }

  /** The reply answers from these states of the streams, and from the process as it is in the end. */
  ghost predicate Answers(out: Track, err: Track, p: S.ProcessState, max: Option<nat>, r: ReadReply) {
    && Drawn(out, max, r.stdout, r.eofOut)
    && Drawn(err, max, r.stderr, r.eofErr)
    && (r.running <==> p == S.Running)
    && (forall code :: r.code == Some(code) <==> p == S.Exited(code))
  }

  lemma FinishAnswers(out: Track, err: Track, max: Option<nat>, w: World, o: Reply, e: Reply, truncated: bool)
    requires Drawn(out, max, o.bytes, o.eof) && Drawn(err, max, e.bytes, e.eof)
    ensures Answers(out, err, w.process, max, Finish(w, o, e, truncated))
  {
  }

  lemma OnePairAnswers(cap: nat, w: World, max: Option<nat>, between: Meanwhile, last: Meanwhile, truncated: bool)
    requires Backed(w)
    ensures var d := DrainBoth(cap, w, max, between);
            var end := Elapse(cap, d.world, last);
            Answers(w.out, Elapse(cap, w, between).err, end.process, max, Finish(end, d.out, d.err, truncated))
  {
    var d := DrainBoth(cap, w, max, between);
    var end := Elapse(cap, d.world, last);
    DrainBothDraws(cap, w, max, between);
    FinishAnswers(w.out, Elapse(cap, w, between).err, max, end, d.out, d.err, truncated);
  }

  /** The reply answers from the streams as they are at the last drain of each. The last drains are the first pair,
      unless these find nothing on either stream and the caller waits. */
  lemma ReplyIsOfTheLastDrains(cap: nat, w: World, max: Option<nat>, waits: bool,
                               first: Meanwhile, waiting: Meanwhile, second: Meanwhile, last: Meanwhile)
    requires Backed(w)
    ensures var (w', r) := Read(cap, w, max, waits, first, waiting, second, last);
            if waits && HasNothing(w.out, max) && HasNothing(Elapse(cap, w, first).err, max) then
              var waited := Elapse(cap, DrainBoth(cap, w, max, first).world, waiting);
              Answers(waited.out, Elapse(cap, waited, second).err, w'.process, max, r)
            else Answers(w.out, Elapse(cap, w, first).err, w'.process, max, r)
  {
    var d := DrainBoth(cap, w, max, first);
    var lost := d.out.truncated || d.err.truncated;
    DrainBothDraws(cap, w, max, first);
    if NothingYet(d) && waits {
      var w1 := Elapse(cap, d.world, waiting);
      var d' := DrainBoth(cap, w1, max, second);
      OnePairAnswers(cap, w1, max, second, last, lost || d'.out.truncated || d'.err.truncated);
    } else {
      OnePairAnswers(cap, w, max, first, last, lost);
    }
  }

  // ---- A caller that keeps reading ----

  datatype Call = Call(before: Meanwhile, max: Option<nat>, waits: bool,
                       first: Meanwhile, waiting: Meanwhile, second: Meanwhile, last: Meanwhile)

  function CallRead(cap: nat, w: World, c: Call): (r: (World, ReadReply))
    requires Backed(w)
    ensures Backed(r.0)
  {
    Read(cap, Elapse(cap, w, c.before), c.max, c.waits, c.first, c.waiting, c.second, c.last)
  }

  const START := World(S.Running, FRESH, FRESH)

  /** Concatenated replies so far. */
  datatype Reader = Reader(world: World, stdout: seq<byte>, stderr: seq<byte>, truncated: bool)

  lemma CallSound(cap: nat, w: World, c: Call) returns (startOut: nat, startErr: nat)
    requires Sound(cap, w)
    ensures var (w', r) := CallRead(cap, w, c); Sound(cap, w') && Hears(cap, w, w', r, startOut, startErr)
  {
    ElapseSound(cap, w, c.before);
    var w1 := Elapse(cap, w, c.before);
    startOut, startErr := ReadLosesNothing(cap, w1, c.max, c.waits, c.first, c.waiting, c.second, c.last);
    var (w', r) := CallRead(cap, w, c);
    LaterThenHands(w.out, w1.out, w'.out, r.stdout, startOut);
    LaterThenHands(w.err, w1.err, w'.err, r.stderr, startErr);
  }

  /** `bytes` is what a stream held up to the read position. */
  ghost predicate ReadSoFar(t: Track, bytes: seq<byte>) {
    t.pos <= |t.stream| && bytes == t.stream[..t.pos]
  }

  lemma PrefixGrows(t: Track, t': Track, sofar: seq<byte>, bytes: seq<byte>)
    requires ReadSoFar(t, sofar) && Hands(t, t', bytes, t.pos)
    ensures ReadSoFar(t', sofar + bytes)
  {
    assert t'.stream[..t.pos] == sofar;
    assert t'.stream[..t.pos] + t'.stream[t.pos..t'.pos] == t'.stream[..t'.pos];
  }

  lemma PrefixStep(cap: nat, r: Reader, c: Call)
    requires Sound(cap, r.world) && ReadSoFar(r.world.out, r.stdout) && ReadSoFar(r.world.err, r.stderr)
    requires cap == 0 || !CallRead(cap, r.world, c).1.truncated
    ensures var (w, reply) := CallRead(cap, r.world, c);
            ReadSoFar(w.out, r.stdout + reply.stdout) && ReadSoFar(w.err, r.stderr + reply.stderr)
  {
    var startOut, startErr := CallSound(cap, r.world, c);
    var (w, reply) := CallRead(cap, r.world, c);
    PrefixGrows(r.world.out, w.out, r.stdout, reply.stdout);
    PrefixGrows(r.world.err, w.err, r.stderr, reply.stderr);
  }

  // ---- End of file and the process ----

  /** A closed stream belongs to a process that has ended. */
  ghost predicate ClosedAfterEnd(w: World) {
    w.out.buf.closed || w.err.buf.closed ==> w.process != S.Running
  }

  lemma ElapseClosed(cap: nat, w: World, m: Meanwhile)
    requires ClosedAfterEnd(w)
    ensures ClosedAfterEnd(Elapse(cap, w, m))
    ensures w.process != S.Running ==> Elapse(cap, w, m).process == w.process
  {
  }

  lemma DrainBothClosed(cap: nat, w: World, max: Option<nat>, between: Meanwhile)
    requires Backed(w) && ClosedAfterEnd(w)
    ensures var d := DrainBoth(cap, w, max, between);
            ClosedAfterEnd(d.world) && (d.out.eof || d.err.eof ==> d.world.process != S.Running)
  {
    var w1 := w.(out := Drain(w.out, max).0);
    ElapseClosed(cap, w1, between);
  }

  lemma FinishClosed(cap: nat, d: Drained, truncated: bool, last: Meanwhile)
    requires ClosedAfterEnd(d.world) && (d.out.eof || d.err.eof ==> d.world.process != S.Running)
    ensures var end := Elapse(cap, d.world, last);
            var r := Finish(end, d.out, d.err, truncated);
            ClosedAfterEnd(end) && (r.eofOut || r.eofErr ==> !r.running)
  {
    ElapseClosed(cap, d.world, last);
  }

  lemma ReadClosed(cap: nat, w: World, max: Option<nat>, waits: bool,
                   first: Meanwhile, waiting: Meanwhile, second: Meanwhile, last: Meanwhile)
    requires Backed(w) && ClosedAfterEnd(w)
    ensures var (w', r) := Read(cap, w, max, waits, first, waiting, second, last);
            ClosedAfterEnd(w') && (r.eofOut || r.eofErr ==> !r.running)
  {
    DrainBothClosed(cap, w, max, first);
    var d := DrainBoth(cap, w, max, first);
    var lost := d.out.truncated || d.err.truncated;
    if NothingYet(d) && waits {
      ElapseClosed(cap, d.world, waiting);
      DrainBothClosed(cap, Elapse(cap, d.world, waiting), max, second);
      var d' := DrainBoth(cap, Elapse(cap, d.world, waiting), max, second);
      FinishClosed(cap, d', lost || d'.out.truncated || d'.err.truncated, last);
    } else {
      FinishClosed(cap, d, lost, last);
    }
  }

  lemma CallClosed(cap: nat, w: World, c: Call)
    requires Backed(w) && ClosedAfterEnd(w)
    ensures var (w', r) := CallRead(cap, w, c); ClosedAfterEnd(w') && (r.eofOut || r.eofErr ==> !r.running)
  {
    ElapseClosed(cap, w, c.before);
    ReadClosed(cap, Elapse(cap, w, c.before), c.max, c.waits, c.first, c.waiting, c.second, c.last);
  }

  // ---- Any calls ----

  /** Until a reply reports truncation, and for ever without a capacity, the concatenated replies are what the
      streams held up to the read positions: a prefix of the child's output. And closed streams belong to a
      process that has ended. */
  ghost predicate Heard(cap: nat, r: Reader) {
    && Sound(cap, r.world) && ClosedAfterEnd(r.world)
    && (cap == 0 || !r.truncated ==> ReadSoFar(r.world.out, r.stdout) && ReadSoFar(r.world.err, r.stderr))
  }

  ghost function AfterCall(cap: nat, r: Reader, c: Call): (r': Reader)
    requires Heard(cap, r)
    ensures Heard(cap, r')
  {
    var (w, reply) := CallRead(cap, r.world, c);
    var next := Reader(w, r.stdout + reply.stdout, r.stderr + reply.stderr, r.truncated || reply.truncated);
    assert Heard(cap, next) by {
      var _, _ := CallSound(cap, r.world, c);
      CallClosed(cap, r.world, c);
      if cap == 0 || !next.truncated {
        PrefixStep(cap, r, c);
      }
    }
    next
  }

  /** All the calls, and what they leave. */
  ghost function AfterCalls(cap: nat, calls: seq<Call>): (r: Reader)
    ensures Heard(cap, r)
  {
    if calls == [] then Reader(START, [], [], false)
    else AfterCall(cap, AfterCalls(cap, calls[..|calls| - 1]), calls[|calls| - 1])
  }

  /** After any calls, a reply that reports the end of either stream says that the process is not running. */
  lemma EndOfFileMeansEnded(cap: nat, calls: seq<Call>, c: Call)
    ensures var r := CallRead(cap, AfterCalls(cap, calls).world, c).1; r.eofOut || r.eofErr ==> !r.running
  {
    CallClosed(cap, AfterCalls(cap, calls).world, c);
  }

  // ---- The action itself ----

  class ProcessHandle {
    const stdout: B.StreamBuffer
    const stderr: B.StreamBuffer
    var state: S.ProcessState

    ghost predicate Valid()
      reads this, stdout, stderr
    {
      stdout != stderr && stdout.cap == stderr.cap && stdout.Valid() && stderr.Valid()
    }

    ghost function Now(): World
      reads this, stdout, stderr
    {
      World(state, stdout.Now(), stderr.Now())
    }

    constructor (cap: nat)
      ensures Valid() && stdout.cap == cap && Now() == START
      ensures fresh(stdout) && fresh(stderr)
    {
      stdout := new B.StreamBuffer(cap);
      stderr := new B.StreamBuffer(cap);
      state := S.Running;
    }

    /** The drain tasks and the wait task, while a reader waits. */
    method Let(m: Meanwhile)
      requires Valid()
      modifies this, stdout, stderr
      ensures Valid() && Now() == Elapse(stdout.cap, old(Now()), m)
    {
      stdout.Push(m.out);
      stderr.Push(m.err);
      if state == S.Running && m.ends.Some? {
        state := S.FinalState(m.ends.value);
      }
      if m.closesOut && state != S.Running {
        stdout.Close();
      }
      if m.closesErr && state != S.Running {
        stderr.Close();
      }
    }

    method DrainStreams(max: Option<nat>, between: Meanwhile) returns (o: Reply, e: Reply)
      requires Valid()
      modifies this, stdout, stderr
      ensures Valid()
      ensures Drained(Now(), o, e) == DrainBoth(stdout.cap, old(Now()), max, between)
    {
      var bytes, truncated, eof := stdout.Drain(max);
      o := Reply(bytes, truncated, eof);
      Let(between);
      bytes, truncated, eof := stderr.Drain(max);
      e := Reply(bytes, truncated, eof);
    }

    method ActionRead(max: Option<nat>, waits: bool,
                      first: Meanwhile, waiting: Meanwhile, second: Meanwhile, last: Meanwhile) returns (r: ReadReply)
      requires Valid()
      modifies this, stdout, stderr
      ensures Valid()
      ensures (Now(), r) == Read(stdout.cap, old(Now()), max, waits, first, waiting, second, last)
    {
      var o, e := DrainStreams(max, first);
      var truncated := o.truncated || e.truncated;
      if o.bytes == [] && e.bytes == [] && !o.eof && !e.eof && waits {
        Let(waiting);
        o, e := DrainStreams(max, second);
        truncated := truncated || o.truncated || e.truncated;
      }
      Let(last);
      var seen := S.Glance(0, S.Brief, state);
      r := ReadReply(o.bytes, e.bytes, o.eof, e.eof, truncated, seen.running, seen.code);
    }
  }
}
