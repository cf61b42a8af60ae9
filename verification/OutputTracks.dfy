/** The bounded buffer between a child process's output and the callers that read it, as a specification.

    `Track` pairs the buffer with the stream it has been fed and with the position reading has reached;
    those two exist for the specification only. */
module OutputTracks {
  import opened Prelude

  const U64_MAX: nat := 0xFFFF_FFFF_FFFF_FFFF

  type u64 = n: nat | n <= U64_MAX

  function Saturate(n: nat): u64 {
    if n <= U64_MAX then n else U64_MAX
  }

  datatype Buf = Buf(bytes: seq<byte>, dropped: u64, closed: bool)

  /** `stream` is everything pushed so far; reading has reached `pos`. */
  datatype Track = Track(buf: Buf, stream: seq<byte>, pos: nat)

  datatype Reply = Reply(bytes: seq<byte>, truncated: bool, eof: bool)

  const FRESH := Track(Buf([], 0, false), [], 0)

  /** A push keeps the newest `cap` bytes. A capacity of 0 is never equal to the length of a non-empty
      buffer, so it drops nothing; it only counts a drop when it pushes into an empty one. */
  function PushBuf(cap: nat, b: Buf, bytes: seq<byte>): Buf {
    var all := b.bytes + bytes;
    if cap == 0 then
      Buf(all, if b.bytes == [] && bytes != [] then Saturate(b.dropped + 1) else b.dropped, b.closed)
    else
      var kept := LastN(all, cap);
      Buf(kept, Saturate(b.dropped + |all| - |kept|), b.closed)
  }

  function Push(cap: nat, t: Track, bytes: seq<byte>): (t': Track)
    ensures |t.buf.bytes| <= |t.stream| ==> |t'.buf.bytes| <= |t'.stream|
  {
    Track(PushBuf(cap, t.buf, bytes), t.stream + bytes, t.pos)
  }

  function Close(t: Track): Track {
    t.(buf := t.buf.(closed := true))
  }

  function Taken(b: Buf, max: Option<nat>): nat {
    match max
    case Some(m) => Min(m, |b.bytes|)
    case None => |b.bytes|
  }

  function Drain(t: Track, max: Option<nat>): (r: (Track, Reply))
    requires |t.buf.bytes| <= |t.stream|
    ensures |r.0.buf.bytes| <= |r.0.stream|
  {
    var k := Taken(t.buf, max);
    var rest := t.buf.bytes[k..];
    (Track(Buf(rest, 0, t.buf.closed), t.stream, |t.stream| - |rest|),
     Reply(t.buf.bytes[..k], t.buf.dropped > 0, t.buf.closed && rest == []))
  }

  /** The buffer is the newest part of the stream. With a capacity it stays within it, and the counter says how
      much of the stream was lost between the read position and the buffer; without one, nothing was. */
  ghost predicate Accurate(cap: nat, t: Track) {
    && IsSuffix(t.buf.bytes, t.stream)
    && t.pos <= |t.stream| - |t.buf.bytes|
    && (1 <= cap ==> |t.buf.bytes| <= cap && t.buf.dropped == Saturate(|t.stream| - |t.buf.bytes| - t.pos))
    && (cap == 0 ==> t.pos == |t.stream| - |t.buf.bytes|)
  }

  /** A drain delivers the slice of the stream from `start` up to the new read position. The bytes between the
      old position and `start` are lost: with a capacity, it says so exactly when there are any; without one,
      there are none. */
  ghost predicate Delivers(cap: nat, t: Track, t': Track, r: Reply, start: nat) {
    && t.pos <= start <= t'.pos <= |t.stream|
    && t'.stream == t.stream
    && r.bytes == t.stream[start..t'.pos]
    && Reports(cap, r, t.pos, start)
    && (r.eof <==> t.buf.closed && t'.pos == |t.stream|)
  }

  predicate Reports(cap: nat, r: Reply, from: nat, start: nat) {
    if cap == 0 then from == start else r.truncated <==> from < start
  }

  lemma PushAccurate(cap: nat, t: Track, bytes: seq<byte>)
    requires Accurate(cap, t)
    ensures Accurate(cap, Push(cap, t, bytes))
  {
    var all := t.buf.bytes + bytes;
    SuffixAppend(t.buf.bytes, t.stream, bytes);
    if 1 <= cap {
      LastNIsSuffix(all, cap);
      SuffixTransitive(LastN(all, cap), all, t.stream + bytes);
    }
  }

  lemma DrainAccurate(cap: nat, t: Track, max: Option<nat>) returns (start: nat)
    requires Accurate(cap, t)
    ensures var (t', r) := Drain(t, max); Accurate(cap, t') && Delivers(cap, t, t', r, start)
    ensures start == |t.stream| - |t.buf.bytes|
  {
    start := |t.stream| - |t.buf.bytes|;
    var k := Taken(t.buf, max);
    assert t.buf.bytes[..k] == t.stream[start..start + k];
    assert t.buf.bytes[k..] == t.stream[start + k..];
  }

  /** A push loses no more than it must: with a capacity the buffer ends as full as the bytes allow, and without one
      it holds them all. */
  lemma PushKeepsWhatFits(cap: nat, t: Track, bytes: seq<byte>)
    requires Accurate(cap, t)
    ensures var held, held' := |t.buf.bytes| + |bytes|, Push(cap, t, bytes).buf.bytes;
            && |held'| == (if cap == 0 || held <= cap then held else cap)
            && IsSuffix(held', t.buf.bytes + bytes)
            && Push(cap, t, bytes).buf.closed == t.buf.closed
  {
    LastNIsSuffix(t.buf.bytes + bytes, cap);
  }

  /** What a drain of `t` returns: the oldest bytes, all of them or as many as the caller allows, and the end of the
      file exactly when the buffer is closed and nothing is left in it. */
  ghost predicate Drawn(t: Track, max: Option<nat>, bytes: seq<byte>, eof: bool) {
    && bytes <= t.buf.bytes
    && (max == None ==> bytes == t.buf.bytes)
    && (max.Some? ==> |bytes| <= max.value && (|bytes| == max.value || bytes == t.buf.bytes))
    && (eof <==> t.buf.closed && bytes == t.buf.bytes)
  }

  /** What it returns, and that it leaves the rest. */
  lemma DrainTakesWhatIsAllowed(t: Track, max: Option<nat>)
    requires |t.buf.bytes| <= |t.stream|
    ensures var (t', r) := Drain(t, max);
            Drawn(t, max, r.bytes, r.eof) && t.buf.bytes == r.bytes + t'.buf.bytes && t'.buf.closed == t.buf.closed
  {
    var k := Taken(t.buf, max);
    assert t.buf.bytes == t.buf.bytes[..k] + t.buf.bytes[k..];
    assert t.buf.bytes[k..] == [] <==> k == |t.buf.bytes|;
  }

  /** Closing loses nothing, lasts, and is reported by the drain that takes the last byte. */
  lemma CloseIsReported(cap: nat, t: Track, max: Option<nat>, more: seq<byte>)
    requires |t.buf.bytes| <= |t.stream|
    ensures Drain(Close(t), max).1.bytes == Drain(t, max).1.bytes
    ensures Drain(Close(t), max).1.eof <==> Drain(t, max).1.bytes == t.buf.bytes
    ensures Push(cap, Close(t), more).buf.closed && Drain(Close(t), max).0.buf.closed
  {
    DrainTakesWhatIsAllowed(Close(t), max);
  }

  /** Pushing in pieces is pushing at once, for every capacity. */
  lemma PushCompose(cap: nat, b: Buf, x: seq<byte>, y: seq<byte>)
    requires 1 <= cap ==> |b.bytes| <= cap
    ensures PushBuf(cap, PushBuf(cap, b, x), y) == PushBuf(cap, b, x + y)
  {
    assert (b.bytes + x) + y == b.bytes + (x + y);
    if 1 <= cap {
      LastNTwice(b.bytes + x, y, cap);
    }
  }

  /** The push of a single byte, as the code does it. */
  lemma PushByte(cap: nat, b: Buf, x: byte)
    requires 1 <= cap ==> |b.bytes| <= cap
    ensures PushBuf(cap, b, [x]) ==
            if |b.bytes| == cap then
              Buf((if b.bytes == [] then [] else b.bytes[1..]) + [x], Saturate(b.dropped + 1), b.closed)
            else Buf(b.bytes + [x], b.dropped, b.closed)
  {
  }

  lemma PushNothing(cap: nat, b: Buf)
    requires 1 <= cap ==> |b.bytes| <= cap
    ensures PushBuf(cap, b, []) == b
  {
    assert b.bytes + [] == b.bytes;
  }

  // ---- Whole runs ----

  datatype Event = Feed(bytes: seq<byte>) | Shut | Take(max: Option<nat>)

  function TrackAfter(cap: nat, events: seq<Event>): (t: Track)
    ensures |t.buf.bytes| <= |t.stream|
  {
    if events == [] then FRESH
    else
      var t := TrackAfter(cap, events[..|events| - 1]);
      match events[|events| - 1]
      case Feed(bytes) => Push(cap, t, bytes)
      case Shut => Close(t)
      case Take(max) => Drain(t, max).0
  }

  function Replies(cap: nat, events: seq<Event>): seq<Reply> {
    if events == [] then []
    else
      var before, last := events[..|events| - 1], events[|events| - 1];
      Replies(cap, before) + if last.Take? then [Drain(TrackAfter(cap, before), last.max).1] else []
  }

  /** What the child wrote. */
  function Output(events: seq<Event>): seq<byte> {
    if events == [] then []
    else
      Output(events[..|events| - 1]) +
      match events[|events| - 1]
      case Feed(bytes) => bytes
      case _ => []
  }

  /** Cut `i` is the slice of the output that reply `i` delivers. */
  datatype Cut = Cut(start: nat, end: nat)

  function EndOf(cuts: seq<Cut>): nat {
    if cuts == [] then 0 else cuts[|cuts| - 1].end
  }

  /** The replies are disjoint slices of the output, in order, and report the gaps before their slices. */
  ghost predicate Explains(cap: nat, cuts: seq<Cut>, output: seq<byte>, replies: seq<Reply>) {
    && |cuts| == |replies|
    && (cuts != [] ==>
          && Explains(cap, cuts[..|cuts| - 1], output, replies[..|replies| - 1])
          && Tells(cap, cuts[|cuts| - 1], EndOf(cuts[..|cuts| - 1]), output, replies[|replies| - 1]))
  }

  /** One reply delivers one slice, and reports the gap from `from` on. */
  ghost predicate Tells(cap: nat, cut: Cut, from: nat, output: seq<byte>, r: Reply) {
    && from <= cut.start <= cut.end <= |output|
    && r.bytes == output[cut.start..cut.end]
    && Reports(cap, r, from, cut.start)
  }

  lemma TellsMore(cap: nat, cut: Cut, from: nat, output: seq<byte>, more: seq<byte>, r: Reply)
    requires Tells(cap, cut, from, output, r)
    ensures Tells(cap, cut, from, output + more, r)
  {
    SliceOfLonger(output, more, cut.start, cut.end);
  }

  function Delivered(cuts: seq<Cut>): int {
    if cuts == [] then 0 else Delivered(cuts[..|cuts| - 1]) + cuts[|cuts| - 1].end - cuts[|cuts| - 1].start
  }

  function Lost(cuts: seq<Cut>): int {
    if cuts == [] then 0
    else Lost(cuts[..|cuts| - 1]) + cuts[|cuts| - 1].start - EndOf(cuts[..|cuts| - 1])
  }

  lemma {:induction false} ExplainsMore(
    cap: nat, cuts: seq<Cut>, output: seq<byte>, more: seq<byte>, replies: seq<Reply>)
    requires Explains(cap, cuts, output, replies)
    ensures Explains(cap, cuts, output + more, replies)
  {
    if cuts != [] {
      ExplainsMore(cap, cuts[..|cuts| - 1], output, more, replies[..|replies| - 1]);
      TellsMore(cap, cuts[|cuts| - 1], EndOf(cuts[..|cuts| - 1]), output, more, replies[|replies| - 1]);
    }
  }

  lemma {:induction false} DeliveredAndLost(cuts: seq<Cut>)
    ensures Delivered(cuts) + Lost(cuts) == EndOf(cuts)
  {
    if cuts != [] {
      DeliveredAndLost(cuts[..|cuts| - 1]);
    }
  }

  /** A drain adds the cut that explains its reply. */
  lemma ExplainDrain(cap: nat, t: Track, max: Option<nat>, cuts: seq<Cut>, replies: seq<Reply>)
    returns (cuts': seq<Cut>)
    requires Accurate(cap, t) && t.pos == EndOf(cuts) && Explains(cap, cuts, t.stream, replies)
    ensures var (t', r) := Drain(t, max);
            && Accurate(cap, t') && t'.stream == t.stream && t'.pos == EndOf(cuts')
            && Explains(cap, cuts', t.stream, replies + [r])
  {
    var start := DrainAccurate(cap, t, max);
    var (t', r) := Drain(t, max);
    cuts' := cuts + [Cut(start, t'.pos)];
    ExplainsOneMore(cap, cuts, Cut(start, t'.pos), t.stream, replies, r);
  }

  lemma ExplainsOneMore(cap: nat, cuts: seq<Cut>, cut: Cut, output: seq<byte>, replies: seq<Reply>, r: Reply)
    requires Explains(cap, cuts, output, replies) && Tells(cap, cut, EndOf(cuts), output, r)
    ensures Explains(cap, cuts + [cut], output, replies + [r])
  {
    InitAndLast(cuts, cut);
    InitAndLast(replies, r);
  }

  /** For any interleaving of pushes, closes and drains: the track's stream is the output, the replies are
      explained by cuts that end at the read position, and the buffer and its counter are accurate. */
  lemma {:induction false} RunExplained(cap: nat, events: seq<Event>) returns (cuts: seq<Cut>)
    ensures var t := TrackAfter(cap, events);
            && Accurate(cap, t) && t.stream == Output(events) && t.pos == EndOf(cuts)
            && Explains(cap, cuts, Output(events), Replies(cap, events))
  {
    if events == [] {
      cuts := [];
    } else {
      var before, last := events[..|events| - 1], events[|events| - 1];
      var t := TrackAfter(cap, before);
      cuts := RunExplained(cap, before);
      match last
      case Feed(bytes) =>
        PushAccurate(cap, t, bytes);
        ExplainsMore(cap, cuts, t.stream, bytes, Replies(cap, before));
        assert Replies(cap, events) == Replies(cap, before);
        assert Output(events) == t.stream + bytes;
      case Shut =>
        assert Output(events) == Output(before);
        assert Replies(cap, events) == Replies(cap, before);
      case Take(max) =>
        assert Output(events) == Output(before);
        assert Replies(cap, events) == Replies(cap, before) + [Drain(t, max).1];
        cuts := ExplainDrain(cap, t, max, cuts, Replies(cap, before));
    }
  }

  /** Of a stream read with these cuts, the bytes neither delivered nor reported as lost nor still buffered. */
  function Unreported(t: Track, cuts: seq<Cut>): int {
    |t.stream| - Delivered(cuts) - Lost(cuts) - |t.buf.bytes|
  }

  lemma UnreportedIsCounted(cap: nat, t: Track, cuts: seq<Cut>)
    requires Accurate(cap, t) && t.pos == EndOf(cuts)
    ensures 0 <= Unreported(t, cuts)
    ensures if cap == 0 then Unreported(t, cuts) == 0 else t.buf.dropped == Saturate(Unreported(t, cuts))
  {
    DeliveredAndLost(cuts);
  }

  /** Conservation: every byte of the output was delivered, was lost before a delivered slice, is counted
      for the next drain to report, or is still buffered. */
  lemma EveryByteAccountedFor(cap: nat, events: seq<Event>) returns (cuts: seq<Cut>)
    ensures Explains(cap, cuts, Output(events), Replies(cap, events))
    ensures TrackAfter(cap, events).stream == Output(events)
    ensures var t := TrackAfter(cap, events);
            && 0 <= Unreported(t, cuts)
            && if cap == 0 then Unreported(t, cuts) == 0 else t.buf.dropped == Saturate(Unreported(t, cuts))
  {
    cuts := RunExplained(cap, events);
    UnreportedIsCounted(cap, TrackAfter(cap, events), cuts);
  }

  /** The buffer stays within its capacity in every run exactly when the capacity is not 0. */
  lemma BoundedIffPositive(cap: nat)
    ensures 1 <= cap <==> forall events :: |TrackAfter(cap, events).buf.bytes| <= cap
  {
    if 1 <= cap {
      forall events ensures |TrackAfter(cap, events).buf.bytes| <= cap {
        var _ := RunExplained(cap, events);
      }
    } else {
      var events := [Feed([0])];
      assert events[..0] == [];
      assert |TrackAfter(cap, events).buf.bytes| == 1;
    }
  }

  /** The replies of a run report truncation exactly where bytes are lost: what a capacity of 1 or more would
      have to mean. */
  ghost predicate Told(cap: nat, events: seq<Event>) {
    exists cuts :: Explains(1, cuts, Output(events), Replies(cap, events))
  }

  /** The reports mean the same for all capacities but 0. */
  lemma {:induction false} ExplainsAlike(cap: nat, cuts: seq<Cut>, output: seq<byte>, replies: seq<Reply>)
    requires 1 <= cap && Explains(cap, cuts, output, replies)
    ensures Explains(1, cuts, output, replies)
  {
    if cuts != [] {
      ExplainsAlike(cap, cuts[..|cuts| - 1], output, replies[..|replies| - 1]);
    }
  }

  /** They do in every run exactly when the capacity is not 0. */
  lemma ToldExactlyIffPositive(cap: nat)
    ensures 1 <= cap <==> forall events :: Told(cap, events)
  {
    if 1 <= cap {
      forall events ensures Told(cap, events) {
        var cuts := RunExplained(cap, events);
        ExplainsAlike(cap, cuts, Output(events), Replies(cap, events));
      }
    } else {
      NotTold([Feed([0]), Take(None)]);
    }
  }

  lemma NotTold(events: seq<Event>)
    requires events == [Feed([0]), Take(None)]
    ensures !Told(0, events)
  {
    FalseAlarm(events);
    forall cuts ensures !Explains(1, cuts, Output(events), Replies(0, events)) {
      if |cuts| == 1 {
        assert cuts[..0] == [] && EndOf([]) == 0;
      }
    }
  }

  /** With capacity 0 a push into the empty buffer counts as a drop. */
  lemma FalseAlarm(events: seq<Event>)
    requires events == [Feed([0]), Take(None)]
    ensures Output(events) == [0] && Replies(0, events) == [Reply([0], true, false)]
  {
    assert events[..1] == [Feed([0])] && events[..1][..0] == [];
    assert Output(events[..1]) == [0];
    assert TrackAfter(0, events[..1]).buf == Buf([0], 1, false);
    assert Replies(0, events[..1]) == [];
  }
}
