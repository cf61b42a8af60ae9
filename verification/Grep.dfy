/** The `grep` tool of tools-rust: a walk over files, the matching lines of each, context around them, and
    limits on files and matches. The walk, the globs and the regular expression come from libraries; here they
    are a sequence of entries, a flag on each entry, and a predicate on lines. */
module Grep {
  import opened Prelude
  import opened Scanner

  /** `data` is what reading the file gives, if it can be read. */
  datatype Entry = Entry(isFile: bool, path: string, inGlob: bool, data: Option<Text>)

  datatype Mode = Content | FilesWithMatches | Count

  datatype Query = Query(matcher: Text -> bool, mode: Mode, context: nat, limit: nat, maxFiles: nat)

  datatype Found = Found(path: string, line: nat, text: Text)

  datatype Output = Output(matches: seq<Found>, files: seq<string>, counts: seq<(string, nat)>)

  datatype Report = Report(output: Output, walked: nat, truncated: bool)

  // ---- Lines of a file, and which of them match ----

  /** The length of the first line of `s`, with its newline. */
  function LineLength(s: Text): (n: nat)
    requires s != []
    ensures 0 < n <= |s|
  {
    if s[0] == LF || |s| == 1 then 1 else 1 + LineLength(s[1..])
  }

  /** The lines of a text, each with its newline; the last may have none. */
  function Lines(s: Text): seq<Text>
    decreases |s|
  {
    if s == [] then [] else [s[..LineLength(s)]] + Lines(s[LineLength(s)..])
  }

  /** Not empty, and without a newline before its last character. */
  predicate IsLine(line: Text) {
    line != [] && LF !in line[..|line| - 1]
  }

  /** Each but the last ends in a newline. */
  ghost predicate AreLines(lines: seq<Text>) {
    lines == []
    || (IsLine(lines[0]) && (|lines| > 1 ==> lines[0][|lines[0]| - 1] == LF) && AreLines(lines[1..]))
  }

  lemma {:induction false} FirstLine(s: Text)
    requires s != []
    ensures IsLine(s[..LineLength(s)]) && (LineLength(s) < |s| ==> s[LineLength(s) - 1] == LF)
  {
    if s[0] != LF && |s| > 1 {
      FirstLine(s[1..]);
      var n := LineLength(s[1..]);
      assert s[..n] == [s[0]] + s[1..][..n - 1];
    }
  }

  /** The lines are the text, cut after every newline and nowhere else. */
  lemma {:induction false} LinesExactly(s: Text)
    ensures Concat(Lines(s)) == s && AreLines(Lines(s))
    decreases |s|
  {
    if s != [] {
      var n := LineLength(s);
      FirstLine(s);
      LinesExactly(s[n..]);
      LineThenMore(s, n, Lines(s[n..]));
    }
  }

  lemma LineThenMore(s: Text, n: nat, more: seq<Text>)
    requires 0 < n <= |s| && IsLine(s[..n]) && (n < |s| ==> s[n - 1] == LF)
    requires Concat(more) == s[n..] && AreLines(more)
    ensures Concat([s[..n]] + more) == s && AreLines([s[..n]] + more)
  {
    assert ([s[..n]] + more)[1..] == more;
    assert s == s[..n] + s[n..];
    if n == |s| {
      NoLines(more);
    }
  }

  lemma NoLines(lines: seq<Text>)
    requires AreLines(lines) && Concat(lines) == []
    ensures lines == []
  {
  }

  predicate Searchable(e: Entry) {
    e.inGlob && e.data.Some? && 0 !in e.data.value
  }

  /** The indices of the matching lines among the first `n`. */
  function HitsUpTo(q: Query, lines: seq<Text>, n: nat): seq<nat>
    requires n <= |lines|
  {
    if n == 0 then []
    else if q.matcher(lines[n - 1]) then HitsUpTo(q, lines, n - 1) + [n - 1]
    else HitsUpTo(q, lines, n - 1)
  }

  lemma {:induction false} HitsExactly(q: Query, lines: seq<Text>, n: nat)
    requires n <= |lines|
    ensures forall h: nat :: h in HitsUpTo(q, lines, n) <==> h < n && q.matcher(lines[h])
  {
    if n > 0 {
      HitsExactly(q, lines, n - 1);
    }
  }

  function Hits(q: Query, e: Entry): seq<nat> {
    if Searchable(e) then var lines := Lines(e.data.value); HitsUpTo(q, lines, |lines|) else []
  }

  // ---- Context windows ----

  ghost predicate Increasing(s: seq<nat>) {
    |s| <= 1 || (s[0] < s[1] && Increasing(s[1..]))
  }

  predicate Near(hits: seq<nat>, context: nat, l: nat) {
    exists h: nat | h in hits :: h <= l + context && l <= h + context
  }

  /** The lines among the first `n` that are within `context` of a hit. */
  function NearLines(hits: seq<nat>, context: nat, n: nat): (lines: seq<nat>)
    ensures forall k | 0 <= k < |lines| :: lines[k] < n
  {
    if n == 0 then []
    else if Near(hits, context, n - 1) then NearLines(hits, context, n - 1) + [n - 1]
    else NearLines(hits, context, n - 1)
  }

  lemma {:induction false} NearLinesExactly(hits: seq<nat>, context: nat, n: nat)
    ensures forall l: nat :: l in NearLines(hits, context, n) <==> l < n && Near(hits, context, l)
  {
    if n > 0 {
      NearLinesExactly(hits, context, n - 1);
    }
  }

  lemma {:induction false} IncreasingAppend(s: seq<nat>, x: nat)
    requires Increasing(s) && forall y: nat | y in s :: y < x
    ensures Increasing(s + [x])
  {
    if s != [] {
      assert forall y: nat | y in s[1..] :: y in s;
      IncreasingAppend(s[1..], x);
      assert (s + [x])[1..] == s[1..] + [x];
      assert (s + [x])[1] == if |s| > 1 then s[1] else x;
      assert s[0] in s;
    }
  }

  lemma {:induction false} IncreasingHead(s: seq<nat>)
    requires Increasing(s) && s != []
    ensures forall y: nat | y in s[1..] :: s[0] < y
  {
    if |s| > 1 {
      IncreasingHead(s[1..]);
      assert forall y: nat | y in s[1..] :: y == s[1] || y in s[1..][1..];
    }
  }

  lemma NeitherEmpty(a: seq<nat>, b: seq<nat>)
    requires a != [] && forall x: nat | x in a :: x in b
    ensures b != []
  {
    assert a[0] in a;
  }

  lemma {:induction false} IncreasingUnique(a: seq<nat>, b: seq<nat>)
    requires Increasing(a) && Increasing(b) && forall x: nat :: x in a <==> x in b
    ensures a == b
  {
    if a == [] {
      if b != [] {
        NeitherEmpty(b, a);
      }
    } else {
      assert a[0] in b && b[0] in a;
      IncreasingHead(a);
      IncreasingHead(b);
      assert forall x: nat :: x in a <==> x == a[0] || x in a[1..];
      assert forall x: nat :: x in b <==> x == b[0] || x in b[1..];
      assert a[0] == b[0];
      forall x: nat ensures x in a[1..] <==> x in b[1..] {
        assert x in a <==> x in b;
      }
      IncreasingUnique(a[1..], b[1..]);
      assert a == [a[0]] + a[1..] && b == [b[0]] + b[1..];
    }
  }

  /** The context is given in order, each line once. */
  lemma {:induction false} NearLinesIncrease(hits: seq<nat>, context: nat, n: nat)
    ensures Increasing(NearLines(hits, context, n))
  {
    if n > 0 {
      NearLinesIncrease(hits, context, n - 1);
      NearLinesExactly(hits, context, n - 1);
      IncreasingAppend(NearLines(hits, context, n - 1), n - 1);
    }
  }

  /** Insertion into an ordered set. */
  function InsertLine(s: seq<nat>, x: nat): (r: seq<nat>)
    ensures forall y: nat :: y in r <==> y == x || y in s
  {
    if s == [] || x < s[0] then [x] + s
    else if x == s[0] then s
    else [s[0]] + InsertLine(s[1..], x)
  }

  lemma {:induction false} InsertLineIncreases(s: seq<nat>, x: nat)
    requires Increasing(s)
    ensures Increasing(InsertLine(s, x))
  {
    if s != [] && x > s[0] {
      InsertLineIncreases(s[1..], x);
      var t := InsertLine(s[1..], x);
      IncreasingHead(s);
      assert t[0] in t;
      assert ([s[0]] + t)[1..] == t;
    } else if s != [] && x < s[0] {
      assert ([x] + s)[1..] == s;
    }
  }

  /** The windows around the hits, merged. */
  method Select(hits: seq<nat>, context: nat, n: nat) returns (selected: seq<nat>)
    requires forall h: nat | h in hits :: h < n
    ensures selected == NearLines(hits, context, n)
  {
    selected := [];
    for k := 0 to |hits|
      invariant Increasing(selected)
      invariant forall l: nat :: l in selected <==> l < n && Near(hits[..k], context, l)
    {
      var idx := hits[k];
      assert idx in hits;
      var start: nat := if idx >= context then idx - context else 0;
      var end := Min(idx + context, n - 1);
      var before := selected;
      for l := start to end + 1
        invariant Increasing(selected)
        invariant forall x: nat :: x in selected <==> x in before || start <= x < l
      {
        InsertLineIncreases(selected, l);
        selected := InsertLine(selected, l);
      }
      forall l: nat ensures l in selected <==> l < n && Near(hits[..k + 1], context, l) {
        OneMoreHit(hits, k, context, l);
      }
    }
    assert hits[..|hits|] == hits;
    NearLinesIncrease(hits, context, n);
    NearLinesExactly(hits, context, n);
    IncreasingUnique(selected, NearLines(hits, context, n));
  }

  lemma OneMoreHit(hits: seq<nat>, k: nat, context: nat, l: nat)
    requires k < |hits|
    ensures Near(hits[..k + 1], context, l)
       <==> Near(hits[..k], context, l) || (hits[k] <= l + context && l <= hits[k] + context)
  {
    assert hits[..k + 1] == hits[..k] + [hits[k]];
    assert hits[k] in hits[..k + 1];
    assert forall h: nat :: h in hits[..k + 1] <==> h in hits[..k] || h == hits[k];
    if Near(hits[..k], context, l) {
      var h :| h in hits[..k] && h <= l + context && l <= h + context;
      assert h in hits[..k + 1];
    }
  }

  // ---- What a search reports ----

  /** The regular files of a walk. */
  function Files(entries: seq<Entry>): seq<Entry> {
    if entries == [] then []
    else
      var last := entries[|entries| - 1];
      Files(entries[..|entries| - 1]) + (if last.isFile then [last] else [])
  }

  /** A matching line of the walk: which file, which line. */
  datatype Hit = Hit(file: nat, line: nat)

  function Tagged(file: nat, lines: seq<nat>): (r: seq<Hit>)
    ensures |r| == |lines|
  {
    if lines == [] then [] else [Hit(file, lines[0])] + Tagged(file, lines[1..])
  }

  /** All matching lines of the files, in walk order. */
  function AllHits(q: Query, files: seq<Entry>): seq<Hit> {
    if files == [] then []
    else
      var before := files[..|files| - 1];
      AllHits(q, before) + Tagged(|before|, Hits(q, files[|before|]))
  }

  /** The lines chosen in one file. */
  function LinesOf(chosen: seq<Hit>, file: nat): seq<nat> {
    if chosen == [] then []
    else if chosen[0].file == file then [chosen[0].line] + LinesOf(chosen[1..], file)
    else LinesOf(chosen[1..], file)
  }

  function Block(path: string, lines: seq<Text>, selected: seq<nat>): seq<Found>
    requires forall k | 0 <= k < |selected| :: selected[k] < |lines|
  {
    if selected == [] then []
    else
      var last := selected[|selected| - 1];
      Block(path, lines, selected[..|selected| - 1])
      + [Found(path, last + 1, TrimEnd(TrimEnd(lines[last], LF), CR))]
  }

  /** Of the first `n` lines, those within the context of a hit. */
  function ShownLines(path: string, lines: seq<Text>, hits: seq<nat>, context: nat, n: nat): seq<Found>
    requires n <= |lines|
  {
    if n == 0 then []
    else if Near(hits, context, n - 1) then
      ShownLines(path, lines, hits, context, n - 1) + [Found(path, n, TrimEnd(TrimEnd(lines[n - 1], LF), CR))]
    else ShownLines(path, lines, hits, context, n - 1)
  }

  /** What content mode shows of a file in which the lines `hits` are chosen. */
  function Shown(q: Query, e: Entry, hits: seq<nat>): seq<Found> {
    if !Searchable(e) then []
    else
      var lines := Lines(e.data.value);
      ShownLines(e.path, lines, hits, q.context, |lines|)
  }

  /** A file's block holds each line near a hit once, in increasing order. */
  lemma {:induction false} ShownIsBlock(path: string, lines: seq<Text>, hits: seq<nat>, context: nat, n: nat)
    requires n <= |lines|
    ensures ShownLines(path, lines, hits, context, n) == Block(path, lines, NearLines(hits, context, n))
  {
    if n > 0 {
      ShownIsBlock(path, lines, hits, context, n - 1);
      var before := NearLines(hits, context, n - 1);
      BlockStep(path, lines, before, n - 1);
    }
  }

  lemma BlockStep(path: string, lines: seq<Text>, before: seq<nat>, l: nat)
    requires l < |lines| && forall k | 0 <= k < |before| :: before[k] < |lines|
    ensures Block(path, lines, before + [l])
         == Block(path, lines, before) + [Found(path, l + 1, TrimEnd(TrimEnd(lines[l], LF), CR))]
  {
    InitAndLast(before, l);
  }

  /** Content mode: the files in turn, each with the context of the hits chosen in it. */
  function ShownUpTo(q: Query, files: seq<Entry>, chosen: seq<Hit>, n: nat): seq<Found>
    requires n <= |files|
  {
    if n == 0 then [] else ShownUpTo(q, files, chosen, n - 1) + Shown(q, files[n - 1], LinesOf(chosen, n - 1))
  }

  /** The files that have a match, with the number of matching lines. */
  function Tallies(q: Query, files: seq<Entry>): (r: seq<(string, nat)>)
    ensures |r| <= |files|
  {
    if files == [] then []
    else
      var last := files[|files| - 1];
      var hits := Hits(q, last);
      Tallies(q, files[..|files| - 1]) + (if hits != [] then [(last.path, |hits|)] else [])
  }

  function Paths(tallies: seq<(string, nat)>): seq<string> {
    if tallies == [] then [] else Paths(tallies[..|tallies| - 1]) + [tallies[|tallies| - 1].0]
  }

  /** What the limit counts: matching lines in content mode, files with a match in the others. */
  function FoundIn(q: Query, files: seq<Entry>): nat {
    if q.mode == Content then |AllHits(q, files)| else |Tallies(q, files)|
  }

  /** The report meets the query: only the first `maxFiles` files count, the first `limit` hits (or files) among
      them are shown, and truncation is reported exactly when something was left out by either limit. */
  ghost predicate Meets(q: Query, entries: seq<Entry>, r: Report) {
    var all := Files(entries);
    var files := all[..Min(q.maxFiles, |all|)];
    var hits := AllHits(q, files);
    var tallies := Tallies(q, files);
    var chosen := hits[..Min(q.limit, |hits|)];
    && r.output.matches == (if q.mode == Content then ShownUpTo(q, files, chosen, |files|) else [])
    && r.output.files == (if q.mode == FilesWithMatches then Paths(tallies[..Min(q.limit, |tallies|)]) else [])
    && r.output.counts == (if q.mode == Count then tallies[..Min(q.limit, |tallies|)] else [])
    && (r.truncated <==> |all| > q.maxFiles || FoundIn(q, files) > q.limit)
    && r.walked <= |all|
    && (FoundIn(q, files) <= q.limit ==> r.walked == Min(q.maxFiles + 1, |all|))
    && (FoundIn(q, files) > q.limit ==>
          0 < r.walked <= |files| && FoundIn(q, files[..r.walked - 1]) <= q.limit < FoundIn(q, files[..r.walked]))
  }

  // ---- The hits of some files, and of more ----

  lemma {:induction false} FilesPrefix(entries: seq<Entry>, k: nat)
    requires k <= |entries|
    ensures IsPrefix(Files(entries[..k]), Files(entries))
  {
    if k == |entries| {
      assert entries[..k] == entries;
    } else {
      assert entries[..|entries| - 1][..k] == entries[..k];
      FilesPrefix(entries[..|entries| - 1], k);
    }
  }

  lemma {:induction false} HitsPrefix(q: Query, lines: seq<Text>, k: nat, n: nat)
    requires k <= n <= |lines|
    ensures IsPrefix(HitsUpTo(q, lines, k), HitsUpTo(q, lines, n))
  {
    if k < n {
      HitsPrefix(q, lines, k, n - 1);
    }
  }

  lemma {:induction false} AllHitsPrefix(q: Query, files: seq<Entry>, k: nat)
    requires k <= |files|
    ensures IsPrefix(AllHits(q, files[..k]), AllHits(q, files))
  {
    if k == |files| {
      assert files[..k] == files;
    } else {
      assert files[..|files| - 1][..k] == files[..k];
      AllHitsPrefix(q, files[..|files| - 1], k);
    }
  }

  lemma {:induction false} TalliesPrefix(q: Query, files: seq<Entry>, k: nat)
    requires k <= |files|
    ensures IsPrefix(Tallies(q, files[..k]), Tallies(q, files))
  {
    if k == |files| {
      assert files[..k] == files;
    } else {
      assert files[..|files| - 1][..k] == files[..k];
      TalliesPrefix(q, files[..|files| - 1], k);
    }
  }

  /** Every hit is in one of the first `n` files. */
  ghost predicate Within(hits: seq<Hit>, n: nat) {
    hits == [] || (hits[0].file < n && Within(hits[1..], n))
  }

  lemma {:induction false} WithinConcat(a: seq<Hit>, m: nat, b: seq<Hit>, n: nat)
    requires Within(a, m) && Within(b, n) && m <= n
    ensures Within(a + b, n)
  {
    if a == [] {
      assert a + b == b;
    } else {
      assert (a + b)[1..] == a[1..] + b;
      WithinConcat(a[1..], m, b, n);
    }
  }

  lemma {:induction false} TaggedWithin(file: nat, lines: seq<nat>)
    ensures Within(Tagged(file, lines), file + 1)
  {
    if lines != [] {
      TaggedWithin(file, lines[1..]);
    }
  }

  lemma {:induction false} AllHitsWithin(q: Query, files: seq<Entry>)
    ensures Within(AllHits(q, files), |files|)
  {
    if files != [] {
      AllHitsWithin(q, files[..|files| - 1]);
      var more := Tagged(|files| - 1, Hits(q, files[|files| - 1]));
      TaggedWithin(|files| - 1, Hits(q, files[|files| - 1]));
      WithinConcat(AllHits(q, files[..|files| - 1]), |files| - 1, more, |files|);
    }
  }

  lemma {:induction false} LinesOfConcat(a: seq<Hit>, b: seq<Hit>, file: nat)
    ensures LinesOf(a + b, file) == LinesOf(a, file) + LinesOf(b, file)
  {
    if a == [] {
      assert a + b == b;
    } else {
      assert (a + b)[1..] == a[1..] + b;
      LinesOfConcat(a[1..], b, file);
    }
  }

  lemma {:induction false} LinesOfTagged(file: nat, lines: seq<nat>, other: nat)
    ensures LinesOf(Tagged(file, lines), other) == if file == other then lines else []
  {
    if lines != [] {
      LinesOfTagged(file, lines[1..], other);
    }
  }

  lemma {:induction false} LinesOfLater(hits: seq<Hit>, n: nat, file: nat)
    requires Within(hits, n) && n <= file
    ensures LinesOf(hits, file) == []
  {
    if hits != [] {
      LinesOfLater(hits[1..], n, file);
    }
  }

  lemma {:induction false} TaggedPart(file: nat, lines: seq<nat>, k: nat)
    requires k <= |lines|
    ensures Tagged(file, lines)[..k] == Tagged(file, lines[..k])
  {
    if k > 0 {
      TaggedPart(file, lines[1..], k - 1);
      assert lines[..k][1..] == lines[1..][..k - 1];
    }
  }

  /** What is shown of the first `n` files depends on no file after them, */
  lemma {:induction false} ShownOfFirst(q: Query, files: seq<Entry>, chosen: seq<Hit>, n: nat, k: nat)
    requires n <= k <= |files|
    ensures ShownUpTo(q, files, chosen, n) == ShownUpTo(q, files[..k], chosen, n)
  {
    if n > 0 {
      ShownOfFirst(q, files, chosen, n - 1, k);
    }
  }

  lemma EarlierLines(chosen: seq<Hit>, m: nat, lines: seq<nat>, k: nat)
    requires k < m
    ensures LinesOf(chosen + Tagged(m, lines), k) == LinesOf(chosen, k)
  {
    LinesOfConcat(chosen, Tagged(m, lines), k);
    LinesOfTagged(m, lines, k);
    assert LinesOf(chosen, k) + [] == LinesOf(chosen, k);
  }

  lemma ShownStep(q: Query, files: seq<Entry>, chosen: seq<Hit>, n: nat, lines: seq<nat>)
    requires 0 < n <= |files| && LinesOf(chosen, n - 1) == lines
    ensures ShownUpTo(q, files, chosen, n) == ShownUpTo(q, files, chosen, n - 1) + Shown(q, files[n - 1], lines)
  {
  }

  lemma SameStep(q: Query, files: seq<Entry>, chosen: seq<Hit>, m: nat, lines: seq<nat>, n: nat)
    requires 0 < n <= |files| && n <= m
    requires ShownUpTo(q, files, chosen + Tagged(m, lines), n - 1) == ShownUpTo(q, files, chosen, n - 1)
    ensures ShownUpTo(q, files, chosen + Tagged(m, lines), n) == ShownUpTo(q, files, chosen, n)
  {
    EarlierLines(chosen, m, lines, n - 1);
  }

  lemma EmptyStep(q: Query, files: seq<Entry>, chosen: seq<Hit>, k: nat, n: nat)
    requires k < n <= |files| && Within(chosen, k)
    ensures ShownUpTo(q, files, chosen, n) == ShownUpTo(q, files, chosen, n - 1)
  {
    LinesOfLater(chosen, k, n - 1);
    NothingShown(q, files[n - 1]);
    ShownStep(q, files, chosen, n, []);
  }

  /** and on no hit in a file after them. */
  lemma {:induction false} ShownWithoutLater(
    q: Query, files: seq<Entry>, chosen: seq<Hit>, m: nat, lines: seq<nat>, n: nat)
    requires n <= m && n <= |files|
    ensures ShownUpTo(q, files, chosen + Tagged(m, lines), n) == ShownUpTo(q, files, chosen, n)
  {
    if n > 0 {
      ShownWithoutLater(q, files, chosen, m, lines, n - 1);
      SameStep(q, files, chosen, m, lines, n);
    }
  }

  lemma ShowOneMore(q: Query, seen: seq<Entry>, e: Entry, lines: seq<nat>)
    ensures ShownUpTo(q, seen + [e], AllHits(q, seen) + Tagged(|seen|, lines), |seen| + 1)
         == ShownUpTo(q, seen, AllHits(q, seen), |seen|) + Shown(q, e, lines)
  {
    var hits, n := AllHits(q, seen), |seen|;
    var chosen := hits + Tagged(n, lines);
    LastLines(q, seen, lines);
    ShownStep(q, seen + [e], chosen, n + 1, lines);
    ShownOfFirst(q, seen + [e], chosen, n, n);
    assert (seen + [e])[..n] == seen;
    ShownWithoutLater(q, seen, hits, n, lines, n);
  }

  lemma LastLines(q: Query, seen: seq<Entry>, lines: seq<nat>)
    ensures LinesOf(AllHits(q, seen) + Tagged(|seen|, lines), |seen|) == lines
  {
    AllHitsWithin(q, seen);
    LinesOfLater(AllHits(q, seen), |seen|, |seen|);
    LinesOfConcat(AllHits(q, seen), Tagged(|seen|, lines), |seen|);
    LinesOfTagged(|seen|, lines, |seen|);
  }

  lemma ShowNothingLater(q: Query, files: seq<Entry>, chosen: seq<Hit>, k: nat, n: nat)
    requires k <= n <= |files| && Within(chosen, k)
    ensures ShownUpTo(q, files, chosen, n) == ShownUpTo(q, files[..k], chosen, k)
  {
    ShownOfFirst(q, files, chosen, k, k);
    NothingAdded(q, files, chosen, k, n);
  }

  lemma {:induction false} NothingAdded(q: Query, files: seq<Entry>, chosen: seq<Hit>, k: nat, n: nat)
    requires k <= n <= |files| && Within(chosen, k)
    ensures ShownUpTo(q, files, chosen, n) == ShownUpTo(q, files, chosen, k)
    decreases n
  {
    if k < n {
      NothingAdded(q, files, chosen, k, n - 1);
      EmptyStep(q, files, chosen, k, n);
    }
  }

  lemma NothingShown(q: Query, e: Entry)
    ensures Shown(q, e, []) == []
  {
    if Searchable(e) {
      NothingNear(e.path, Lines(e.data.value), q.context, |Lines(e.data.value)|);
    }
  }

  lemma {:induction false} NothingNear(path: string, lines: seq<Text>, context: nat, n: nat)
    requires n <= |lines|
    ensures ShownLines(path, lines, [], context, n) == []
  {
    if n > 0 {
      NothingNear(path, lines, context, n - 1);
    }
  }

  /** `AllHits` has exactly the matching lines of the files. */
  lemma {:induction false} AllHitsExactly(q: Query, files: seq<Entry>, h: Hit)
    ensures h in AllHits(q, files) <==> h.file < |files| && IsHit(q, files[h.file], h.line)
  {
    if files != [] {
      var last := files[|files| - 1];
      AllHitsExactly(q, files[..|files| - 1], h);
      TaggedExactly(|files| - 1, Hits(q, last), h);
      if Searchable(last) {
        HitsExactly(q, Lines(last.data.value), |Lines(last.data.value)|);
      }
    }
  }

  /** A matching line of a file that the glob admits, that can be read, and that has no NUL byte. */
  predicate IsHit(q: Query, e: Entry, l: nat) {
    && e.inGlob && e.data.Some? && 0 !in e.data.value
    && l < |Lines(e.data.value)| && q.matcher(Lines(e.data.value)[l])
  }

  lemma {:induction false} TaggedExactly(file: nat, lines: seq<nat>, h: Hit)
    ensures h in Tagged(file, lines) <==> h.file == file && h.line in lines
  {
    if lines != [] {
      TaggedExactly(file, lines[1..], h);
      assert lines == [lines[0]] + lines[1..];
    }
  }

  /** They come in walk order: by file, and by line within a file. */
  ghost predicate Ordered(hits: seq<Hit>) {
    |hits| <= 1 || (Precedes(hits[0], hits[1]) && Ordered(hits[1..]))
  }

  predicate Precedes(a: Hit, b: Hit) {
    a.file < b.file || (a.file == b.file && a.line < b.line)
  }

  lemma {:induction false} TaggedOrdered(file: nat, lines: seq<nat>)
    requires Increasing(lines)
    ensures Ordered(Tagged(file, lines)) && (lines != [] ==> Tagged(file, lines)[0].file == file)
  {
    if lines != [] {
      TaggedOrdered(file, lines[1..]);
      assert Tagged(file, lines)[1..] == Tagged(file, lines[1..]);
    }
  }

  lemma {:induction false} OrderedConcat(a: seq<Hit>, n: nat, b: seq<Hit>)
    requires Ordered(a) && Within(a, n) && Ordered(b) && (b != [] ==> b[0].file >= n)
    ensures Ordered(a + b)
  {
    if a == [] {
      assert a + b == b;
    } else {
      assert (a + b)[1..] == a[1..] + b;
      OrderedConcat(a[1..], n, b);
    }
  }

  lemma {:induction false} HitsIncrease(q: Query, lines: seq<Text>, n: nat)
    requires n <= |lines|
    ensures Increasing(HitsUpTo(q, lines, n))
  {
    if n > 0 {
      HitsIncrease(q, lines, n - 1);
      HitsExactly(q, lines, n - 1);
      IncreasingAppend(HitsUpTo(q, lines, n - 1), n - 1);
    }
  }

  lemma {:induction false} AllHitsOrdered(q: Query, files: seq<Entry>)
    ensures Ordered(AllHits(q, files))
  {
    if files != [] {
      var before, last := files[..|files| - 1], files[|files| - 1];
      AllHitsOrdered(q, before);
      AllHitsWithin(q, before);
      if Searchable(last) {
        HitsIncrease(q, Lines(last.data.value), |Lines(last.data.value)|);
      }
      TaggedOrdered(|before|, Hits(q, last));
      OrderedConcat(AllHits(q, before), |before|, Tagged(|before|, Hits(q, last)));
    }
  }

  // ---- What a report holds, line by line ----

  lemma {:induction false} TaggedAt(file: nat, lines: seq<nat>, k: nat)
    requires k < |lines|
    ensures Tagged(file, lines)[k] == Hit(file, lines[k])
  {
    if k > 0 {
      TaggedAt(file, lines[1..], k - 1);
    }
  }

  lemma {:induction false} BlockAt(path: string, lines: seq<Text>, selected: seq<nat>, k: nat)
    requires forall i | 0 <= i < |selected| :: selected[i] < |lines|
    requires k < |selected|
    ensures |Block(path, lines, selected)| == |selected|
    ensures Block(path, lines, selected)[k]
         == Found(path, selected[k] + 1, TrimEnd(TrimEnd(lines[selected[k]], LF), CR))
  {
    if k < |selected| - 1 {
      BlockAt(path, lines, selected[..|selected| - 1], k);
    } else {
      BlockLength(path, lines, selected);
    }
  }

  lemma {:induction false} BlockLength(path: string, lines: seq<Text>, selected: seq<nat>)
    requires forall i | 0 <= i < |selected| :: selected[i] < |lines|
    ensures |Block(path, lines, selected)| == |selected|
  {
    if selected != [] {
      BlockLength(path, lines, selected[..|selected| - 1]);
    }
  }

  /** `text` is the line up to the last character that is neither CR nor LF. */
  ghost predicate WithoutEnd(line: Text, text: Text) {
    && text <= line
    && (forall i | |text| <= i < |line| :: line[i] == CR || line[i] == LF)
    && (text != [] ==> text[|text| - 1] != CR && text[|text| - 1] != LF)
  }

  lemma LineTrimmed(line: Text)
    requires IsLine(line)
    ensures WithoutEnd(line, TrimEnd(TrimEnd(line, LF), CR))
  {
    var t := TrimEnd(line, LF);
    var text := TrimEnd(t, CR);
    TrimEndExactly(line, LF);
    TrimEndExactly(t, CR);
    assert forall i | 0 <= i < |line| - 1 :: line[..|line| - 1][i] == line[i];
    assert forall i | 0 <= i < |line| - 1 :: line[i] != LF;
  }

  lemma {:induction false} EachIsLine(lines: seq<Text>, l: nat)
    requires AreLines(lines) && l < |lines|
    ensures IsLine(lines[l])
  {
    if l > 0 {
      EachIsLine(lines[1..], l - 1);
    }
  }

  /** `f` reports line `h.line` of file `h.file`: its path, its number counted from 1, and its text without its end. */
  ghost predicate Tells(files: seq<Entry>, f: Found, h: Hit) {
    && h.file < |files| && files[h.file].data.Some?
    && var lines := Lines(files[h.file].data.value);
       && h.line < |lines|
       && f.path == files[h.file].path && f.line == h.line + 1 && WithoutEnd(lines[h.line], f.text)
  }

  ghost predicate TellsAll(files: seq<Entry>, found: seq<Found>, at: seq<Hit>) {
    |found| == |at| && forall k | 0 <= k < |at| :: Tells(files, found[k], at[k])
  }

  lemma TellsBoth(files: seq<Entry>, found: seq<Found>, at: seq<Hit>, found': seq<Found>, at': seq<Hit>)
    requires TellsAll(files, found, at) && TellsAll(files, found', at')
    ensures TellsAll(files, found + found', at + at')
  {
  }

  /** The lines of one file that are within the context of a chosen hit. */
  function Selected(q: Query, e: Entry, hits: seq<nat>): seq<nat> {
    if Searchable(e) then NearLines(hits, q.context, |Lines(e.data.value)|) else []
  }

  lemma ShownTells(q: Query, files: seq<Entry>, file: nat, hits: seq<nat>)
    requires file < |files|
    ensures TellsAll(files, Shown(q, files[file], hits), Tagged(file, Selected(q, files[file], hits)))
  {
    var e := files[file];
    if Searchable(e) {
      var lines := Lines(e.data.value);
      var selected := NearLines(hits, q.context, |lines|);
      ShownIsBlock(e.path, lines, hits, q.context, |lines|);
      BlockLength(e.path, lines, selected);
      LinesExactly(e.data.value);
      forall k | 0 <= k < |selected|
        ensures Tells(files, Block(e.path, lines, selected)[k], Tagged(file, selected)[k])
      {
        BlockAt(e.path, lines, selected, k);
        TaggedAt(file, selected, k);
        EachIsLine(lines, selected[k]);
        LineTrimmed(lines[selected[k]]);
      }
    }
  }

  /** The places of the lines shown of the first `n` files. */
  function ShownAt(q: Query, files: seq<Entry>, chosen: seq<Hit>, n: nat): seq<Hit>
    requires n <= |files|
  {
    if n == 0 then []
    else ShownAt(q, files, chosen, n - 1) + Tagged(n - 1, Selected(q, files[n - 1], LinesOf(chosen, n - 1)))
  }

  lemma {:induction false} ShownUpToTells(q: Query, files: seq<Entry>, chosen: seq<Hit>, n: nat)
    requires n <= |files|
    ensures TellsAll(files, ShownUpTo(q, files, chosen, n), ShownAt(q, files, chosen, n))
  {
    if n > 0 {
      var hits := LinesOf(chosen, n - 1);
      ShownUpToTells(q, files, chosen, n - 1);
      ShownTells(q, files, n - 1, hits);
      TellsBoth(files, ShownUpTo(q, files, chosen, n - 1), ShownAt(q, files, chosen, n - 1),
                Shown(q, files[n - 1], hits), Tagged(n - 1, Selected(q, files[n - 1], hits)));
    }
  }

  lemma SelectedIncrease(q: Query, e: Entry, hits: seq<nat>)
    ensures Increasing(Selected(q, e, hits))
  {
    if Searchable(e) {
      NearLinesIncrease(hits, q.context, |Lines(e.data.value)|);
    }
  }

  /** In walk order, among the first `n` files. */
  ghost predicate InPlace(hits: seq<Hit>, n: nat) {
    Ordered(hits) && Within(hits, n)
  }

  lemma {:induction false} ShownAtOrdered(q: Query, files: seq<Entry>, chosen: seq<Hit>, n: nat)
    requires n <= |files|
    ensures InPlace(ShownAt(q, files, chosen, n), n)
  {
    if n > 0 {
      ShownAtOrdered(q, files, chosen, n - 1);
      SelectedIncrease(q, files[n - 1], LinesOf(chosen, n - 1));
      OrderedThenFile(ShownAt(q, files, chosen, n - 1), n - 1, Selected(q, files[n - 1], LinesOf(chosen, n - 1)));
    }
  }

  lemma OrderedThenFile(a: seq<Hit>, n: nat, lines: seq<nat>)
    requires InPlace(a, n) && Increasing(lines)
    ensures InPlace(a + Tagged(n, lines), n + 1)
  {
    TaggedOrdered(n, lines);
    TaggedWithin(n, lines);
    OrderedConcat(a, n, Tagged(n, lines));
    WithinConcat(a, n, Tagged(n, lines), n + 1);
  }

  lemma {:induction false} LinesOfExactly(chosen: seq<Hit>, h: Hit)
    ensures h.line in LinesOf(chosen, h.file) <==> h in chosen
  {
    if chosen != [] {
      LinesOfExactly(chosen[1..], h);
    }
  }

  /** The line is within the context of a chosen hit in its file. */
  ghost predicate AroundChosen(q: Query, files: seq<Entry>, chosen: seq<Hit>, h: Hit) {
    && h.file < |files| && files[h.file].data.Some? && h.line < |Lines(files[h.file].data.value)|
    && exists c | c in chosen :: c.file == h.file && c.line <= h.line + q.context && h.line <= c.line + q.context
  }

  lemma SelectedAroundChosen(q: Query, files: seq<Entry>, chosen: seq<Hit>, h: Hit)
    requires h.file < |files| && forall c | c in chosen :: c in AllHits(q, files)
    ensures h.line in Selected(q, files[h.file], LinesOf(chosen, h.file)) <==> AroundChosen(q, files, chosen, h)
  {
    var e, hits := files[h.file], LinesOf(chosen, h.file);
    if Searchable(e) {
      NearLinesExactly(hits, q.context, |Lines(e.data.value)|);
      if Near(hits, q.context, h.line) {
        var l: nat :| l in hits && l <= h.line + q.context && h.line <= l + q.context;
        LinesOfExactly(chosen, Hit(h.file, l));
        assert Hit(h.file, l) in chosen;
      }
    }
    if AroundChosen(q, files, chosen, h) {
      var c :| c in chosen && c.file == h.file && c.line <= h.line + q.context && h.line <= c.line + q.context;
      AllHitsExactly(q, files, c);
      LinesOfExactly(chosen, c);
      assert Near(hits, q.context, h.line);
    }
  }

  lemma {:induction false} ShownAtExactly(q: Query, files: seq<Entry>, chosen: seq<Hit>, n: nat, h: Hit)
    requires n <= |files| && forall c | c in chosen :: c in AllHits(q, files)
    ensures h in ShownAt(q, files, chosen, n) <==> h.file < n && AroundChosen(q, files, chosen, h)
  {
    if n > 0 {
      ShownAtExactly(q, files, chosen, n - 1, h);
      TaggedExactly(n - 1, Selected(q, files[n - 1], LinesOf(chosen, n - 1)), h);
      if h.file == n - 1 {
        SelectedAroundChosen(q, files, chosen, h);
      }
    }
  }

  /** A report in content mode, line by line: `at` are the places of what it shows, in walk order, each once; they are
      exactly the lines within the query's context of the first `limit` hits among the first `maxFiles` files. */
  lemma ReportExactly(q: Query, entries: seq<Entry>, r: Report) returns (at: seq<Hit>)
    requires Meets(q, entries, r) && q.mode == Content
    ensures var files := Files(entries)[..Min(q.maxFiles, |Files(entries)|)];
            var chosen := AllHits(q, files)[..Min(q.limit, |AllHits(q, files)|)];
            && TellsAll(files, r.output.matches, at) && Ordered(at)
            && forall h :: h in at <==> AroundChosen(q, files, chosen, h)
  {
    var files := Files(entries)[..Min(q.maxFiles, |Files(entries)|)];
    var chosen := AllHits(q, files)[..Min(q.limit, |AllHits(q, files)|)];
    at := ShownAt(q, files, chosen, |files|);
    ShownUpToTells(q, files, chosen, |files|);
    ShownAtOrdered(q, files, chosen, |files|);
    forall h ensures h in at <==> AroundChosen(q, files, chosen, h) {
      ShownAtExactly(q, files, chosen, |files|, h);
    }
  }

  lemma {:induction false} HitsCount(q: Query, lines: seq<Text>, n: nat)
    requires n <= |lines|
    ensures |HitsUpTo(q, lines, n)| == |MatchesBelow(q, lines, n)|
  {
    if n == 0 {
      assert MatchesBelow(q, lines, n) == {};
    } else {
      HitsCount(q, lines, n - 1);
      var before := MatchesBelow(q, lines, n - 1);
      assert MatchesBelow(q, lines, n) == if q.matcher(lines[n - 1]) then before + {n - 1} else before;
    }
  }

  function MatchesBelow(q: Query, lines: seq<Text>, n: nat): set<nat>
    requires n <= |lines|
  {
    set l: nat | l < n && q.matcher(lines[l])
  }

  function HitSet(q: Query, e: Entry): set<nat> {
    if e.data.None? then {} else set l: nat | l < |Lines(e.data.value)| && IsHit(q, e, l)
  }

  ghost predicate HasHit(q: Query, e: Entry) {
    exists l :: IsHit(q, e, l)
  }

  lemma HitsOfFile(q: Query, e: Entry)
    ensures |Hits(q, e)| == |HitSet(q, e)| && (Hits(q, e) != [] <==> HasHit(q, e))
  {
    if Searchable(e) {
      var lines := Lines(e.data.value);
      HitsCount(q, lines, |lines|);
      assert HitSet(q, e) == MatchesBelow(q, lines, |lines|);
    } else {
      assert HitSet(q, e) == {};
    }
    if l :| IsHit(q, e, l) {
      assert l in HitSet(q, e);
    }
    if HitSet(q, e) != {} {
      var l :| l in HitSet(q, e);
      assert IsHit(q, e, l);
    }
  }

  /** The files with a hit, by their places in the walk. */
  function FilesHit(q: Query, files: seq<Entry>): seq<nat> {
    if files == [] then []
    else
      var last := |files| - 1;
      FilesHit(q, files[..last]) + (if Hits(q, files[last]) != [] then [last] else [])
  }

  lemma {:induction false} FilesHitExactly(q: Query, files: seq<Entry>, i: nat)
    ensures i in FilesHit(q, files) <==> i < |files| && HasHit(q, files[i])
  {
    if files != [] {
      var before, last := files[..|files| - 1], |files| - 1;
      FilesHitExactly(q, before, i);
      HitsOfFile(q, files[last]);
      var more: seq<nat> := if Hits(q, files[last]) != [] then [last] else [];
      assert FilesHit(q, files) == FilesHit(q, before) + more;
      assert i in more <==> i == last && Hits(q, files[last]) != [];
      assert i in FilesHit(q, before) + more <==> i in FilesHit(q, before) || i in more;
      assert i < last ==> before[i] == files[i];
    }
  }

  lemma {:induction false} FilesHitIncrease(q: Query, files: seq<Entry>)
    ensures Increasing(FilesHit(q, files))
  {
    if files != [] {
      var before := files[..|files| - 1];
      FilesHitIncrease(q, before);
      forall i: nat | i in FilesHit(q, before) ensures i < |before| {
        FilesHitExactly(q, before, i);
      }
      IncreasingAppend(FilesHit(q, before), |before|);
      assert FilesHit(q, before) + [] == FilesHit(q, before);
    }
  }

  /** The tally is of this file: its path and the number of its hits. */
  ghost predicate Counts(q: Query, files: seq<Entry>, tally: (string, nat), file: nat) {
    file < |files| && tally == (files[file].path, |HitSet(q, files[file])|)
  }

  ghost predicate CountsAll(q: Query, files: seq<Entry>, tallies: seq<(string, nat)>, at: seq<nat>) {
    |tallies| == |at| && forall k | 0 <= k < |at| :: Counts(q, files, tallies[k], at[k])
  }

  ghost predicate Names(files: seq<Entry>, paths: seq<string>, at: seq<nat>) {
    |paths| == |at| && forall k | 0 <= k < |at| :: at[k] < |files| && paths[k] == files[at[k]].path
  }

  lemma {:induction false} TalliesCount(q: Query, files: seq<Entry>)
    ensures CountsAll(q, files, Tallies(q, files), FilesHit(q, files))
  {
    if files != [] {
      var before, last := files[..|files| - 1], |files| - 1;
      TalliesCount(q, before);
      HitsOfFile(q, files[last]);
      CountsMore(q, before, files[last], Tallies(q, before), FilesHit(q, before));
      assert files == before + [files[last]];
    }
  }

  lemma CountsMore(q: Query, before: seq<Entry>, e: Entry, tallies: seq<(string, nat)>, at: seq<nat>)
    requires CountsAll(q, before, tallies, at)
    ensures CountsAll(q, before + [e], tallies, at)
    ensures CountsAll(q, before + [e], tallies + [(e.path, |HitSet(q, e)|)], at + [|before|])
  {
    forall k | 0 <= k < |at| ensures Counts(q, before + [e], tallies[k], at[k]) {
      assert Counts(q, before, tallies[k], at[k]);
    }
  }

  lemma CountsFirst(q: Query, files: seq<Entry>, tallies: seq<(string, nat)>, at: seq<nat>, k: nat)
    requires CountsAll(q, files, tallies, at) && k <= |at|
    ensures CountsAll(q, files, tallies[..k], at[..k])
  {
  }

  lemma CountsName(q: Query, files: seq<Entry>, tallies: seq<(string, nat)>, at: seq<nat>)
    requires CountsAll(q, files, tallies, at)
    ensures Names(files, Paths(tallies), at)
  {
    PathsAt(tallies);
    forall k | 0 <= k < |at| ensures at[k] < |files| && Paths(tallies)[k] == files[at[k]].path {
      assert Counts(q, files, tallies[k], at[k]);
    }
  }

  lemma {:induction false} PathsAt(tallies: seq<(string, nat)>)
    ensures |Paths(tallies)| == |tallies| && forall k | 0 <= k < |tallies| :: Paths(tallies)[k] == tallies[k].0
  {
    if tallies != [] {
      PathsAt(tallies[..|tallies| - 1]);
    }
  }

  /** A report in the other modes: `at` are the places of the files it names, in walk order, each once, and each with
      the number of its hits; they are the first `limit` files with a hit among the first `maxFiles`. */
  lemma TalliesExactly(q: Query, entries: seq<Entry>, r: Report) returns (at: seq<nat>, hit: seq<nat>)
    requires Meets(q, entries, r) && q.mode != Content
    ensures var files := Files(entries)[..Min(q.maxFiles, |Files(entries)|)];
            && Increasing(hit) && (forall i: nat :: i in hit <==> i < |files| && HasHit(q, files[i]))
            && at == hit[..Min(q.limit, |hit|)]
            && (q.mode == FilesWithMatches ==> Names(files, r.output.files, at))
            && (q.mode == Count ==> CountsAll(q, files, r.output.counts, at))
  {
    var files := Files(entries)[..Min(q.maxFiles, |Files(entries)|)];
    var tallies := Tallies(q, files);
    hit := FilesHit(q, files);
    at := hit[..Min(q.limit, |hit|)];
    FilesHitIncrease(q, files);
    forall i: nat ensures i in hit <==> i < |files| && HasHit(q, files[i]) {
      FilesHitExactly(q, files, i);
    }
    TalliesCount(q, files);
    CountsFirst(q, files, tallies, hit, |at|);
    CountsName(q, files, tallies[..|at|], at);
  }

  /** The files of a walk are its regular files, in order. */
  function FilePlaces(entries: seq<Entry>): seq<nat> {
    if entries == [] then []
    else
      var last := |entries| - 1;
      FilePlaces(entries[..last]) + (if entries[last].isFile then [last] else [])
  }

  lemma {:induction false} FilePlacesExactly(entries: seq<Entry>, i: nat)
    ensures i in FilePlaces(entries) <==> i < |entries| && entries[i].isFile
  {
    if entries != [] {
      var before, last := entries[..|entries| - 1], |entries| - 1;
      FilePlacesExactly(before, i);
      var more: seq<nat> := if entries[last].isFile then [last] else [];
      assert FilePlaces(entries) == FilePlaces(before) + more;
      assert i in more <==> i == last && entries[last].isFile;
      assert i in FilePlaces(before) + more <==> i in FilePlaces(before) || i in more;
      assert i < last ==> before[i] == entries[i];
    }
  }

  lemma {:induction false} FilePlacesIncrease(entries: seq<Entry>)
    ensures Increasing(FilePlaces(entries))
  {
    if entries != [] {
      var before := entries[..|entries| - 1];
      FilePlacesIncrease(before);
      forall i: nat | i in FilePlaces(before) ensures i < |before| {
        FilePlacesExactly(before, i);
      }
      IncreasingAppend(FilePlaces(before), |before|);
      assert FilePlaces(before) + [] == FilePlaces(before);
    }
  }

  predicate Holds(entries: seq<Entry>, i: nat, e: Entry) {
    i < |entries| && entries[i] == e
  }

  lemma {:induction false} FilesAt(entries: seq<Entry>)
    ensures |FilePlaces(entries)| == |Files(entries)|
    ensures forall k | 0 <= k < |Files(entries)| :: Holds(entries, FilePlaces(entries)[k], Files(entries)[k])
  {
    if entries != [] {
      var before := entries[..|entries| - 1];
      FilesAt(before);
      forall k | 0 <= k < |Files(entries)| ensures Holds(entries, FilePlaces(entries)[k], Files(entries)[k]) {
        if k < |Files(before)| {
          assert Holds(before, FilePlaces(before)[k], Files(before)[k]);
        }
      }
    }
  }

  lemma FilesExactly(entries: seq<Entry>) returns (at: seq<nat>)
    ensures Increasing(at) && (forall i: nat :: i in at <==> i < |entries| && entries[i].isFile)
    ensures |at| == |Files(entries)| && forall k | 0 <= k < |at| :: Holds(entries, at[k], Files(entries)[k])
  {
    at := FilePlaces(entries);
    FilePlacesIncrease(entries);
    forall i: nat ensures i in at <==> i < |entries| && entries[i].isFile {
      FilePlacesExactly(entries, i);
    }
    FilesAt(entries);
  }

  // ---- The search ----

  /** The output after the files in `seen`, which all fitted. */
  ghost predicate SoFar(q: Query, seen: seq<Entry>, out: Output) {
    && FoundIn(q, seen) <= q.limit
    && out.matches == (if q.mode == Content then ShownUpTo(q, seen, AllHits(q, seen), |seen|) else [])
    && out.files == (if q.mode == FilesWithMatches then Paths(Tallies(q, seen)) else [])
    && out.counts == (if q.mode == Count then Tallies(q, seen) else [])
  }

  /** The output after the files in `seen`, and of `e` what the limit allows. */
  ghost predicate Overflows(q: Query, seen: seq<Entry>, e: Entry, out: Output) {
    && FoundIn(q, seen) <= q.limit < FoundIn(q, seen + [e])
    && out.matches == (if q.mode == Content then
                         ShownUpTo(q, seen, AllHits(q, seen), |seen|) + ShownPart(q, seen, e)
                       else [])
    && out.files == (if q.mode == FilesWithMatches then Paths(Tallies(q, seen)) else [])
    && out.counts == (if q.mode == Count then Tallies(q, seen) else [])
  }

  ghost function ShownPart(q: Query, seen: seq<Entry>, e: Entry): seq<Found>
    requires |AllHits(q, seen)| <= q.limit
  {
    Shown(q, e, Hits(q, e)[..Min(q.limit - |AllHits(q, seen)|, |Hits(q, e)|)])
  }

  /** Nothing overflowed in any file that counts. */
  lemma MeetsWhole(q: Query, entries: seq<Entry>, seen: seq<Entry>, r: Report)
    requires SoFar(q, seen, r.output)
    requires IsPrefix(seen, Files(entries)) && |seen| == Min(q.maxFiles, |Files(entries)|)
    requires r.truncated == (|Files(entries)| > q.maxFiles) && r.walked == Min(q.maxFiles + 1, |Files(entries)|)
    ensures Meets(q, entries, r)
  {
    var hits, tallies := AllHits(q, seen), Tallies(q, seen);
    assert Files(entries)[..Min(q.maxFiles, |Files(entries)|)] == seen;
    assert hits[..|hits|] == hits && tallies[..|tallies|] == tallies;
  }

  lemma FoundGrows(q: Query, files: seq<Entry>, k: nat)
    requires k <= |files|
    ensures FoundIn(q, files[..k]) <= FoundIn(q, files)
  {
    AllHitsPrefix(q, files, k);
    TalliesPrefix(q, files, k);
  }

  /** What remains of the limit goes to the first hits of the file that overflows it. */
  lemma ChosenAtOverflow(q: Query, seen: seq<Entry>, e: Entry)
    requires |AllHits(q, seen)| <= q.limit < |AllHits(q, seen + [e])|
    ensures q.limit - |AllHits(q, seen)| <= |Hits(q, e)|
    ensures AllHits(q, seen + [e])[..q.limit]
         == AllHits(q, seen) + Tagged(|seen|, Hits(q, e)[..q.limit - |AllHits(q, seen)|])
  {
    InitAndLast(seen, e);
    TaggedPart(|seen|, Hits(q, e), q.limit - |AllHits(q, seen)|);
  }

  lemma PrefixOfPrefix<T>(a: seq<T>, b: seq<T>, n: nat)
    requires IsPrefix(a, b) && n <= |a|
    ensures a[..n] == b[..n]
  {
  }

  lemma {:induction false} PrefixWithin(hits: seq<Hit>, n: nat, k: nat)
    requires Within(hits, n) && k <= |hits|
    ensures Within(hits[..k], n)
  {
    if k > 0 {
      PrefixWithin(hits[1..], n, k - 1);
      assert hits[..k][1..] == hits[1..][..k - 1];
    }
  }

  lemma ShownAtOverflow(q: Query, files: seq<Entry>, seen: seq<Entry>, e: Entry)
    requires IsPrefix(seen + [e], files) && |AllHits(q, seen)| <= q.limit < |AllHits(q, seen + [e])|
    ensures q.limit < |AllHits(q, files)|
    ensures ShownUpTo(q, files, AllHits(q, files)[..q.limit], |files|)
         == ShownUpTo(q, seen, AllHits(q, seen), |seen|) + ShownPart(q, seen, e)
  {
    var k := |seen| + 1;
    AllHitsPrefix(q, files, k);
    PrefixOfPrefix(AllHits(q, seen + [e]), AllHits(q, files), q.limit);
    AllHitsWithin(q, seen + [e]);
    PrefixWithin(AllHits(q, seen + [e]), k, q.limit);
    ShowNothingLater(q, files, AllHits(q, files)[..q.limit], k, |files|);
    ChosenAtOverflow(q, seen, e);
    ShowOneMore(q, seen, e, Hits(q, e)[..q.limit - |AllHits(q, seen)|]);
  }

  lemma NoHits(q: Query, seen: seq<Entry>, e: Entry)
    requires Hits(q, e) == []
    ensures AllHits(q, seen + [e]) == AllHits(q, seen) && Tallies(q, seen + [e]) == Tallies(q, seen)
  {
    InitAndLast(seen, e);
  }

  lemma MoreHits(q: Query, seen: seq<Entry>, e: Entry)
    requires Hits(q, e) != []
    ensures AllHits(q, seen + [e]) == AllHits(q, seen) + Tagged(|seen|, Hits(q, e))
    ensures Tallies(q, seen + [e]) == Tallies(q, seen) + [(e.path, |Hits(q, e)|)]
    ensures Paths(Tallies(q, seen + [e])) == Paths(Tallies(q, seen)) + [e.path]
  {
    InitAndLast(seen, e);
    var more := Tallies(q, seen) + [(e.path, |Hits(q, e)|)];
    assert more[..|more| - 1] == Tallies(q, seen);
  }

  /** Going on to a file without matches, */
  lemma SkipsQuietFile(q: Query, seen: seq<Entry>, e: Entry, out: Output)
    requires SoFar(q, seen, out) && Hits(q, e) == []
    ensures SoFar(q, seen + [e], out)
  {
    NoHits(q, seen, e);
    if q.mode == Content {
      ShowOneMore(q, seen, e, []);
      NothingShown(q, e);
      assert AllHits(q, seen) + Tagged(|seen|, []) == AllHits(q, seen);
    }
  }

  /** or to one with matches, which all fit or end the search. */
  lemma TakesContent(q: Query, seen: seq<Entry>, e: Entry, out: Output)
    requires q.mode == Content && SoFar(q, seen, out) && Hits(q, e) != []
    requires |AllHits(q, seen)| + |Hits(q, e)| <= q.limit
    ensures SoFar(q, seen + [e], out.(matches := out.matches + Shown(q, e, Hits(q, e))))
    ensures |AllHits(q, seen + [e])| == |AllHits(q, seen)| + |Hits(q, e)|
  {
    MoreHits(q, seen, e);
    ShowOneMore(q, seen, e, Hits(q, e));
  }

  lemma OverflowsContent(q: Query, seen: seq<Entry>, e: Entry, out: Output)
    requires q.mode == Content && SoFar(q, seen, out) && |AllHits(q, seen)| + |Hits(q, e)| > q.limit
    ensures Overflows(q, seen, e, out.(matches := out.matches + ShownPart(q, seen, e)))
  {
    MoreHits(q, seen, e);
  }

  lemma TakesTally(q: Query, seen: seq<Entry>, e: Entry, out: Output)
    requires q.mode != Content && SoFar(q, seen, out) && Hits(q, e) != []
    ensures if |Tallies(q, seen)| < q.limit then
              SoFar(q, seen + [e], if q.mode == FilesWithMatches then out.(files := out.files + [e.path])
                                   else out.(counts := out.counts + [(e.path, |Hits(q, e)|)]))
            else Overflows(q, seen, e, out)
    ensures |Paths(Tallies(q, seen))| == |Tallies(q, seen)|
  {
    MoreHits(q, seen, e);
    PathsLength(Tallies(q, seen));
  }

  lemma {:induction false} PathsLength(tallies: seq<(string, nat)>)
    ensures |Paths(tallies)| == |tallies|
  {
    if tallies != [] {
      PathsLength(tallies[..|tallies| - 1]);
    }
  }

  /** The file that does not fit ends the search. */
  lemma StopsAtOverflow(q: Query, entries: seq<Entry>, seen: seq<Entry>, e: Entry, r: Report)
    requires Overflows(q, seen, e, r.output) && r.truncated && r.walked == |seen| + 1
    requires IsPrefix(seen + [e], Files(entries)) && |seen| < q.maxFiles
    ensures Meets(q, entries, r)
  {
    var all := Files(entries);
    var files := all[..Min(q.maxFiles, |all|)];
    FirstFiles(seen, e, all, q.maxFiles);
    FoundGrows(q, files, |seen| + 1);
    if q.mode == Content {
      ShownAtOverflow(q, files, seen, e);
    } else {
      TalliesAtOverflow(q, files, seen, e);
    }
  }

  lemma FirstFiles(seen: seq<Entry>, e: Entry, all: seq<Entry>, maxFiles: nat)
    requires IsPrefix(seen + [e], all) && |seen| < maxFiles
    ensures var files := all[..Min(maxFiles, |all|)];
            IsPrefix(seen + [e], files) && files[..|seen| + 1] == seen + [e] && files[..|seen|] == seen
  {
  }

  lemma TalliesAtOverflow(q: Query, files: seq<Entry>, seen: seq<Entry>, e: Entry)
    requires IsPrefix(seen + [e], files) && |Tallies(q, seen)| <= q.limit < |Tallies(q, seen + [e])|
    ensures q.limit < |Tallies(q, files)| && Tallies(q, files)[..q.limit] == Tallies(q, seen)
  {
    InitAndLast(seen, e);
    TalliesPrefix(q, files, |seen| + 1);
    PrefixOfPrefix(Tallies(q, seen + [e]), Tallies(q, files), q.limit);
  }

  method MatchedLines(q: Query, lines: seq<Text>, emitted: nat) returns (matched: seq<nat>, perFile: nat, full: bool)
    requires q.mode == Content ==> emitted <= q.limit
    ensures var hits, left := HitsUpTo(q, lines, |lines|), q.limit - emitted;
            && (perFile == 0 <==> hits == []) && (q.mode != Content ==> perFile == |hits| && !full)
            && (q.mode == Content && full ==> |hits| > left && matched == hits[..left])
            && (q.mode == Content && !full ==> |hits| <= left && matched == hits)
  {
    matched, perFile, full := [], 0, false;
    var left := q.limit - emitted;
    for idx := 0 to |lines|
      invariant !full
      invariant perFile == |HitsUpTo(q, lines, idx)|
      invariant matched == if q.mode == Content then HitsUpTo(q, lines, idx) else []
      invariant q.mode == Content ==> perFile <= left
    {
      HitsPrefix(q, lines, idx + 1, |lines|);
      if !q.matcher(lines[idx]) {
        continue;
      }
      perFile := perFile + 1;
      if q.mode == Content {
        if emitted + |matched| >= q.limit {
          full := true;
          break;
        }
        matched := matched + [idx];
      }
    }
  }

  method Show(q: Query, e: Entry, lines: seq<Text>, hits: seq<nat>) returns (block: seq<Found>)
    requires Searchable(e) && lines == Lines(e.data.value) && forall h: nat | h in hits :: h < |lines|
    ensures block == Shown(q, e, hits)
  {
    var selected := Select(hits, q.context, |lines|);
    block := [];
    for k := 0 to |selected|
      invariant block == Block(e.path, lines, selected[..k])
    {
      var l := selected[k];
      assert selected[..k + 1] == selected[..k] + [l] && selected[..k + 1][..k] == selected[..k];
      block := block + [Found(e.path, l + 1, TrimEnd(TrimEnd(lines[l], LF), CR))];
    }
    assert selected[..|selected|] == selected;
    ShownIsBlock(e.path, lines, hits, q.context, |lines|);
  }

  lemma NextFile(entries: seq<Entry>, i: nat)
    requires i < |entries|
    ensures |Files(entries[..i + 1])| <= |Files(entries)|
    ensures IsPrefix(Files(entries[..i]), Files(entries)) && IsPrefix(Files(entries[..i + 1]), Files(entries))
    ensures !entries[i].isFile ==> Files(entries[..i + 1]) == Files(entries[..i])
    ensures entries[i].isFile ==> Files(entries[..i + 1]) == Files(entries[..i]) + [entries[i]]
  {
    FilesPrefix(entries, i);
    FilesPrefix(entries, i + 1);
    FilesOneMore(entries[..i], entries[i]);
    assert entries[..i + 1] == entries[..i] + [entries[i]];
  }

  lemma FilesOneMore(before: seq<Entry>, e: Entry)
    ensures Files(before + [e]) == if e.isFile then Files(before) + [e] else Files(before)
  {
    InitAndLast(before, e);
    assert Files(before) + [] == Files(before);
  }

  lemma FirstHits(q: Query, e: Entry, matched: seq<nat>)
    requires Searchable(e) && matched <= Hits(q, e)
    ensures forall h: nat | h in matched :: h < |Lines(e.data.value)|
  {
    HitsExactly(q, Lines(e.data.value), |Lines(e.data.value)|);
    assert forall h: nat | h in matched :: h in Hits(q, e);
  }

  /** Content mode, for a file with matches; `matched` are those the limit allows. */
  method SearchContent(
    q: Query, ghost seen: seq<Entry>, e: Entry, lines: seq<Text>, matched: seq<nat>, full: bool, out: Output)
    returns (out': Output)
    requires q.mode == Content && SoFar(q, seen, out)
    requires Searchable(e) && lines == Lines(e.data.value) && Hits(q, e) != []
    requires var left := q.limit - |AllHits(q, seen)|;
             if full then |Hits(q, e)| > left && matched == Hits(q, e)[..left]
             else |Hits(q, e)| <= left && matched == Hits(q, e)
    ensures !full ==> SoFar(q, seen + [e], out') && |AllHits(q, seen + [e])| == |AllHits(q, seen)| + |matched|
    ensures full ==> Overflows(q, seen, e, out')
  {
    FirstHits(q, e, matched);
    if full {
      OverflowsContent(q, seen, e, out);
    } else {
      TakesContent(q, seen, e, out);
    }
    var block := Show(q, e, lines, matched);
    out' := out.(matches := out.matches + block);
  }

  /** The other modes, for a file with matches. */
  method SearchTally(q: Query, ghost seen: seq<Entry>, e: Entry, perFile: nat, out: Output)
    returns (out': Output, truncated: bool)
    requires q.mode != Content && SoFar(q, seen, out) && Hits(q, e) != [] && perFile == |Hits(q, e)|
    ensures !truncated ==> SoFar(q, seen + [e], out')
    ensures truncated ==> Overflows(q, seen, e, out')
  {
    TakesTally(q, seen, e, out);
    if q.mode == FilesWithMatches {
      if |out.files| >= q.limit {
        return out, true;
      }
      return out.(files := out.files + [e.path]), false;
    }
    if |out.counts| >= q.limit {
      return out, true;
    }
    return out.(counts := out.counts + [(e.path, perFile)]), false;
  }

  /** One file: its matching lines, and what the mode makes of them. */
  method SearchFile(q: Query, ghost seen: seq<Entry>, e: Entry, out: Output, emitted: nat)
    returns (out': Output, emitted': nat, truncated: bool)
    requires SoFar(q, seen, out) && (q.mode == Content ==> emitted == |AllHits(q, seen)|)
    ensures !truncated ==> SoFar(q, seen + [e], out') && (q.mode == Content ==> emitted' == |AllHits(q, seen + [e])|)
    ensures truncated ==> Overflows(q, seen, e, out')
  {
    out', emitted', truncated := out, emitted, false;
    if Hits(q, e) == [] {
      NoHits(q, seen, e);
      SkipsQuietFile(q, seen, e, out);
    }
    if !e.inGlob || e.data.None? || 0 in e.data.value {
      return;
    }
    var lines := Lines(e.data.value);
    var matched, perFile, full := MatchedLines(q, lines, emitted);
    assert Hits(q, e) == HitsUpTo(q, lines, |lines|);
    if perFile == 0 {
      return;
    }
    if q.mode == Content {
      out' := SearchContent(q, seen, e, lines, matched, full, out);
      emitted', truncated := emitted + |matched|, full;
    } else {
      out', truncated := SearchTally(q, seen, e, perFile, out);
    }
  }

  /** Runs the query over the walk. */
  method RunSearch(entries: seq<Entry>, q: Query) returns (r: Report)
    ensures Meets(q, entries, r)
  {
    var walked, truncated, out, emitted := 0, false, Output([], [], []), 0;
    for i := 0 to |entries|
      invariant walked == |Files(entries[..i])| <= q.maxFiles
      invariant q.mode == Content ==> emitted == |AllHits(q, Files(entries[..i]))|
      invariant SoFar(q, Files(entries[..i]), out)
    {
      var ent := entries[i];
      ghost var seen := Files(entries[..i]);
      NextFile(entries, i);
      if !ent.isFile {
        continue;
      }
      walked := walked + 1;
      if walked > q.maxFiles {
        r := Report(out, walked, true);
        MeetsWhole(q, entries, seen, r);
        return;
      }
      out, emitted, truncated := SearchFile(q, seen, ent, out, emitted);
      if truncated {
        r := Report(out, walked, true);
        StopsAtOverflow(q, entries, seen, ent, r);
        return;
      }
    }
    assert entries[..|entries|] == entries;
    r := Report(out, walked, false);
    MeetsWhole(q, entries, Files(entries), r);
  }
}
