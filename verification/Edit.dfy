/** The `edit` tool of tools-rust: several replacements made at once, each of a text that occurs once. */
module Edit {
  import opened Prelude
  import opened Scanner

  datatype Edit = Edit(oldText: Text, newText: Text)

  datatype EditError =
    | BothForms | NeedsOld | NeedsNew | EmptyOld | NotFound | Ambiguous(count: nat) | NoEdits | Overlap

  /** Replace `src[start..end]` by `text`. */
  datatype Range = Range(start: nat, end: nat, text: Text)

  function RangeOf(src: Text, e: Edit): Result<Range, EditError> {
    if e.oldText == [] then Err(EmptyOld)
    else
      var found := Matches(src, e.oldText, 0);
      if found == [] then Err(NotFound)
      else if |found| > 1 then Err(Ambiguous(|found|))
      else Ok(Range(found[0], found[0] + |e.oldText|, e.newText))
  }

  /** The ranges of all edits, or the first error. */
  function RangesOf(src: Text, edits: seq<Edit>): (r: Result<seq<Range>, EditError>)
    ensures r.Ok? ==> |r.value| == |edits|
  {
    if edits == [] then Ok([])
    else
      match RangesOf(src, edits[..|edits| - 1])
      case Err(e) => Err(e)
      case Ok(ranges) =>
        match RangeOf(src, edits[|edits| - 1])
        case Err(e) => Err(e)
        case Ok(range) => Ok(ranges + [range])
  }

  lemma {:induction false} RangesInOrder(src: Text, edits: seq<Edit>)
    requires RangesOf(src, edits).Ok?
    ensures forall i | 0 <= i < |edits| :: RangeOf(src, edits[i]) == Ok(RangesOf(src, edits).value[i])
  {
    if edits != [] {
      RangesInOrder(src, edits[..|edits| - 1]);
    }
  }

  // ---- What simultaneous replacement means ----

  ghost predicate Placed(src: Text, ranges: seq<Range>) {
    forall r | r in ranges :: r.start < r.end <= |src|
  }

  predicate Apart(a: Range, b: Range) {
    a.end <= b.start || b.end <= a.start
  }

  ghost predicate ApartFromAll(r: Range, s: seq<Range>) {
    forall x | x in s :: Apart(r, x)
  }

  ghost predicate Disjoint(ranges: seq<Range>) {
    ranges == [] || (ApartFromAll(ranges[0], ranges[1..]) && Disjoint(ranges[1..]))
  }

  function StartingAt(ranges: seq<Range>, i: nat): (r: Option<Range>)
    ensures r.Some? ==> r.value in ranges && r.value.start == i
    ensures r.None? ==> forall x | x in ranges :: x.start != i
  {
    if ranges == [] then None
    else if ranges[0].start == i then Some(ranges[0])
    else StartingAt(ranges[1..], i)
  }

  /** Copy the source from `i` on, position by position; where a range starts, put its text instead and go
      on at its end. The order of the ranges plays no part. */
  ghost function Rewrite(src: Text, ranges: seq<Range>, i: nat): Text
    requires Placed(src, ranges)
    decreases |src| - i
  {
    if i >= |src| then []
    else
      match StartingAt(ranges, i)
      case Some(r) => r.text + Rewrite(src, ranges, r.end)
      case None => [src[i]] + Rewrite(src, ranges, i + 1)
  }

  /** Success or failure of the `edits[]` form, and the text. */
  ghost function Replaced(src: Text, edits: seq<Edit>): Result<Text, EditError> {
    if edits == [] then Err(NoEdits)
    else
      match RangesOf(src, edits)
      case Err(e) => Err(e)
      case Ok(ranges) =>
        RangesPlaced(src, edits);
        if Disjoint(ranges) then Ok(Rewrite(src, ranges, 0)) else Err(Overlap)
  }

  lemma RangesPlaced(src: Text, edits: seq<Edit>)
    requires RangesOf(src, edits).Ok?
    ensures Placed(src, RangesOf(src, edits).value)
  {
    var ranges := RangesOf(src, edits).value;
    RangesInOrder(src, edits);
    forall r | r in ranges ensures r.start < r.end <= |src| {
      var i :| 0 <= i < |ranges| && ranges[i] == r;
      MatchesSpaced(src, edits[i].oldText, 0);
    }
  }

  // ---- Sorting, and why looking at neighbours is enough ----

  function Insert(r: Range, sorted: seq<Range>): (s: seq<Range>)
    ensures |s| == |sorted| + 1 && forall x :: x in s <==> x == r || x in sorted
    ensures s[0] == r || (sorted != [] && s[0] == sorted[0])
  {
    if sorted == [] || r.start <= sorted[0].start then [r] + sorted
    else [sorted[0]] + Insert(r, sorted[1..])
  }

  /** A stable sort by start. */
  function SortByStart(ranges: seq<Range>): (s: seq<Range>)
    ensures |s| == |ranges| && forall x :: x in s <==> x in ranges
  {
    if ranges == [] then [] else Insert(ranges[0], SortByStart(ranges[1..]))
  }

  ghost predicate Sorted(s: seq<Range>) {
    |s| <= 1 || (s[0].start <= s[1].start && Sorted(s[1..]))
  }

  /** Each range ends before its right neighbour starts. */
  ghost predicate Chained(s: seq<Range>) {
    |s| <= 1 || (s[0].end <= s[1].start && Chained(s[1..]))
  }

  lemma {:induction false} InsertSorted(r: Range, s: seq<Range>)
    requires Sorted(s)
    ensures Sorted(Insert(r, s))
  {
    if s != [] && r.start > s[0].start {
      InsertSorted(r, s[1..]);
      var t := Insert(r, s[1..]);
      assert s[1..] != [] ==> s[1..][0] == s[1];
      assert ([s[0]] + t)[1..] == t;
    } else {
      assert ([r] + s)[1..] == s;
    }
  }

  lemma {:induction false} SortSorted(ranges: seq<Range>)
    ensures Sorted(SortByStart(ranges))
  {
    if ranges != [] {
      SortSorted(ranges[1..]);
      InsertSorted(ranges[0], SortByStart(ranges[1..]));
    }
  }

  lemma {:induction false} InsertDisjoint(r: Range, s: seq<Range>)
    ensures Disjoint(Insert(r, s)) <==> Disjoint(s) && forall x | x in s :: Apart(r, x)
  {
    if s == [] || r.start <= s[0].start {
      assert ([r] + s)[1..] == s;
    } else {
      InsertDisjoint(r, s[1..]);
      var t := Insert(r, s[1..]);
      assert Insert(r, s) == [s[0]] + t && ([s[0]] + t)[1..] == t;
      assert forall x :: x in s <==> x == s[0] || x in s[1..];
      assert r in t;
      assert forall x :: Apart(s[0], x) <==> Apart(x, s[0]);
      assert Disjoint(Insert(r, s)) <==> (forall x | x in t :: Apart(s[0], x)) && Disjoint(t);
      assert (forall x | x in t :: Apart(s[0], x)) <==> Apart(s[0], r) && forall x | x in s[1..] :: Apart(s[0], x);
    }
  }

  lemma {:induction false} SortDisjoint(ranges: seq<Range>)
    ensures Disjoint(SortByStart(ranges)) <==> Disjoint(ranges)
  {
    if ranges != [] {
      SortDisjoint(ranges[1..]);
      InsertDisjoint(ranges[0], SortByStart(ranges[1..]));
    }
  }

  lemma {:induction false} SortedHead(s: seq<Range>)
    requires Sorted(s) && s != []
    ensures forall r | r in s :: s[0].start <= r.start
  {
    if |s| > 1 {
      SortedHead(s[1..]);
      assert forall r | r in s :: r == s[0] || r in s[1..];
    }
  }

  /** For non-empty ranges sorted by start, checking neighbours decides whether all are apart. */
  lemma {:induction false} NeighboursSuffice(src: Text, s: seq<Range>)
    requires Placed(src, s) && Sorted(s)
    ensures Chained(s) <==> Disjoint(s)
  {
    if |s| > 1 {
      NeighboursSuffice(src, s[1..]);
      SortedHead(s[1..]);
      assert s[1..][0] == s[1] && s[1] in s[1..];
      assert s[0] in s && s[1] in s;
      assert Apart(s[0], s[1]) ==> s[0].end <= s[1].start;
    }
  }

  // ---- The single pass, and its equivalents ----

  /** Chained ranges that start at or after `from`, within the source. */
  ghost predicate Ahead(src: Text, s: seq<Range>, from: nat) {
    from <= |src| && (s == [] || (from <= s[0].start < s[0].end && Ahead(src, s[1..], s[0].end)))
  }

  /** The text the cursor loop produces for the ranges still to come. */
  function OnePass(src: Text, s: seq<Range>, cursor: nat): Text
    requires Ahead(src, s, cursor)
  {
    if s == [] then src[cursor..]
    else
      AheadBounds(src, s[1..], s[0].end);
      src[cursor..s[0].start] + s[0].text + OnePass(src, s[1..], s[0].end)
  }

  lemma AheadBounds(src: Text, s: seq<Range>, from: nat)
    requires Ahead(src, s, from)
    ensures from <= |src|
  {
  }

  lemma {:induction false} ChainedAhead(src: Text, s: seq<Range>, from: nat)
    requires Placed(src, s) && Chained(s) && from <= |src| && (s != [] ==> from <= s[0].start)
    ensures Ahead(src, s, from)
  {
    if s != [] {
      assert s[0] in s;
      assert s[1..] != [] ==> s[1..][0] == s[1];
      ChainedAhead(src, s[1..], s[0].end);
    }
  }

  lemma {:induction false} AheadStarts(src: Text, s: seq<Range>, from: nat)
    requires Ahead(src, s, from)
    ensures forall r | r in s :: from <= r.start < r.end <= |src|
  {
    if s != [] {
      AheadStarts(src, s[1..], s[0].end);
      assert forall r | r in s :: r == s[0] || r in s[1..];
    }
  }

  lemma RewriteCopiesOne(src: Text, ranges: seq<Range>, i: nat)
    requires Placed(src, ranges) && i < |src| && forall r | r in ranges :: r.start != i
    ensures Rewrite(src, ranges, i) == [src[i]] + Rewrite(src, ranges, i + 1)
  {
    assert StartingAt(ranges, i) == None;
  }

  lemma SliceThenRest(src: Text, i: nat, j: nat, rest: Text)
    requires i < j <= |src|
    ensures [src[i]] + (src[i + 1..j] + rest) == src[i..j] + rest
  {
    assert src[i..j] == [src[i]] + src[i + 1..j];
  }

  /** Where no range starts, rewriting copies. */
  lemma {:induction false} RewriteCopies(src: Text, ranges: seq<Range>, i: nat, j: nat)
    requires Placed(src, ranges) && i <= j <= |src|
    requires forall r | r in ranges :: r.start < i || j <= r.start
    ensures Rewrite(src, ranges, i) == src[i..j] + Rewrite(src, ranges, j)
    decreases j - i
  {
    if i < j {
      RewriteCopies(src, ranges, i + 1, j);
      RewriteCopiesOne(src, ranges, i);
      SliceThenRest(src, i, j, Rewrite(src, ranges, j));
    } else {
      assert src[i..j] == [];
    }
  }

  /** The pass over what is ahead of the cursor rewrites the rest of the source; `passed` is behind it. */
  lemma {:induction false} OnePassRewrites(src: Text, passed: seq<Range>, s: seq<Range>, cursor: nat)
    requires Ahead(src, s, cursor) && Placed(src, passed + s)
    requires forall r | r in passed :: r.start < cursor
    ensures OnePass(src, s, cursor) == Rewrite(src, passed + s, cursor)
    decreases |s|
  {
    AheadStarts(src, s, cursor);
    if s == [] {
      RewriteCopies(src, passed + s, cursor, |src|);
      assert Rewrite(src, passed + s, |src|) == [];
    } else {
      PassOne(src, passed, s, cursor);
      assert (passed + [s[0]]) + s[1..] == passed + s;
      OnePassRewrites(src, passed + [s[0]], s[1..], s[0].end);
    }
  }

  /** The rewriting up to the end of the next range. */
  lemma PassOne(src: Text, passed: seq<Range>, s: seq<Range>, cursor: nat)
    requires Ahead(src, s, cursor) && Placed(src, passed + s) && s != []
    requires forall r | r in passed :: r.start < cursor
    ensures s[0].end <= |src|
    ensures Rewrite(src, passed + s, cursor)
         == src[cursor..s[0].start] + s[0].text + Rewrite(src, passed + s, s[0].end)
  {
    var r := s[0];
    AheadStarts(src, s, cursor);
    AheadStarts(src, s[1..], r.end);
    assert forall x | x in passed + s :: x in passed || x == r || x in s[1..];
    RewriteCopies(src, passed + s, cursor, r.start);
    RewriteAt(src, passed, s);
    Regroup(src[cursor..r.start], r.text, Rewrite(src, passed + s, r.end));
  }

  lemma Regroup(a: Text, b: Text, c: Text)
    ensures a + (b + c) == a + b + c
  {
  }

  lemma RewriteAt(src: Text, passed: seq<Range>, s: seq<Range>)
    requires s != [] && Placed(src, passed + s) && forall x | x in passed :: x.start < s[0].start
    ensures s[0].end <= |src|
    ensures Rewrite(src, passed + s, s[0].start) == s[0].text + Rewrite(src, passed + s, s[0].end)
  {
    StartingOnce(passed, s[0], s[1..]);
    assert s == [s[0]] + s[1..];
    assert s[0] in passed + s;
  }

  lemma {:induction false} StartingOnce(a: seq<Range>, r: Range, b: seq<Range>)
    requires forall x | x in a :: x.start != r.start
    ensures StartingAt(a + ([r] + b), r.start) == Some(r)
  {
    if a == [] {
      assert a + ([r] + b) == [r] + b;
    } else {
      assert (a + ([r] + b))[1..] == a[1..] + ([r] + b);
      StartingOnce(a[1..], r, b);
    }
  }

  // ---- The order of the edits plays no part ----

  lemma {:induction false} StartingUnique(ranges: seq<Range>, r: Range, src: Text)
    requires Placed(src, ranges) && Disjoint(ranges) && r in ranges
    ensures StartingAt(ranges, r.start) == Some(r)
  {
    if ranges[0] != r {
      assert r in ranges[1..] && Apart(ranges[0], r) && ranges[0] in ranges;
      StartingUnique(ranges[1..], r, src);
    }
  }

  /** Two disjoint lists of the same ranges rewrite alike. */
  lemma {:induction false} RewriteSame(src: Text, a: seq<Range>, b: seq<Range>, i: nat)
    requires Placed(src, a) && Placed(src, b) && Disjoint(a) && Disjoint(b)
    requires forall r :: r in a <==> r in b
    ensures Rewrite(src, a, i) == Rewrite(src, b, i)
    decreases |src| - i
  {
    if i < |src| {
      match StartingAt(a, i)
      case Some(r) =>
        StartingUnique(b, r, src);
        RewriteSame(src, a, b, r.end);
      case None =>
        assert StartingAt(b, i) == None;
        RewriteSame(src, a, b, i + 1);
    }
  }

  /** Sorting, checking neighbours and one pass with a cursor make the replacement. */
  lemma SortedPassRewrites(src: Text, ranges: seq<Range>)
    requires Placed(src, ranges)
    ensures var s := SortByStart(ranges);
            && (Chained(s) <==> Disjoint(ranges))
            && (Chained(s) ==> Ahead(src, s, 0) && OnePass(src, s, 0) == Rewrite(src, ranges, 0))
  {
    var s := SortByStart(ranges);
    SortSorted(ranges);
    SortDisjoint(ranges);
    NeighboursSuffice(src, s);
    if Chained(s) {
      ChainedAhead(src, s, 0);
      assert [] + s == s;
      OnePassRewrites(src, [], s, 0);
      RewriteSame(src, s, ranges, 0);
    }
  }

  lemma {:induction false} DisjointParts(a: seq<Range>, b: seq<Range>)
    ensures Disjoint(a + b) <==> Disjoint(a) && Disjoint(b) && forall r | r in a :: ApartFromAll(r, b)
  {
    if a == [] {
      assert a + b == b;
    } else {
      assert (a + b)[1..] == a[1..] + b;
      DisjointParts(a[1..], b);
      ApartFromParts(a[0], a[1..], b);
      assert forall r :: r in a <==> r == a[0] || r in a[1..];
    }
  }

  lemma ApartFromParts(r: Range, a: seq<Range>, b: seq<Range>)
    ensures ApartFromAll(r, a + b) <==> ApartFromAll(r, a) && ApartFromAll(r, b)
  {
    assert forall x :: x in a + b <==> x in a || x in b;
  }

  /** A range apart from all others may stand anywhere. */
  lemma DisjointInsert(x: seq<Range>, r: Range, y: seq<Range>)
    requires Disjoint(x + y) && ApartFromAll(r, x + y)
    ensures Disjoint(x + ([r] + y))
  {
    DisjointParts(x, y);
    ApartFromParts(r, x, y);
    assert ([r] + y)[1..] == y;
    assert Disjoint([r] + y);
    forall q | q in x ensures ApartFromAll(q, [r] + y) {
      assert Apart(r, q);
      ApartFromParts(q, [r], y);
    }
    DisjointParts(x, [r] + y);
  }

  /** Taking the element at `k` to the front. */
  lemma MultisetWithout<T>(s: seq<T>, k: nat)
    requires k < |s|
    ensures s == s[..k] + ([s[k]] + s[k + 1..])
    ensures multiset(s) == multiset([s[k]]) + multiset(s[..k] + s[k + 1..])
  {
    assert s == s[..k] + ([s[k]] + s[k + 1..]);
  }

  lemma MultisetHead<T>(a: seq<T>, b: seq<T>) returns (k: nat)
    requires multiset(a) == multiset(b) && a != []
    ensures k < |b| && b[k] == a[0] && multiset(a[1..]) == multiset(b[..k] + b[k + 1..])
  {
    assert a == [a[0]] + a[1..];
    assert a[0] in multiset(a);
    assert a[0] in b;
    k :| 0 <= k < |b| && b[k] == a[0];
    MultisetWithout(b, k);
    assert multiset(a[1..]) == multiset(a) - multiset([a[0]]);
  }

  lemma SameElements<T>(a: seq<T>, b: seq<T>)
    requires multiset(a) == multiset(b)
    ensures forall x :: x in a <==> x in b
  {
    forall x ensures x in a <==> x in b {
      assert x in a <==> x in multiset(a);
      assert x in b <==> x in multiset(b);
    }
  }

  lemma {:induction false} DisjointPermuted(a: seq<Range>, b: seq<Range>)
    requires multiset(a) == multiset(b) && Disjoint(a)
    ensures Disjoint(b)
    decreases |a|
  {
    if a == [] {
      assert |multiset(b)| == 0;
    } else {
      var k := MultisetHead(a, b);
      var rest := b[..k] + b[k + 1..];
      DisjointPermuted(a[1..], rest);
      SameElements(a[1..], rest);
      MultisetWithout(b, k);
      DisjointInsert(b[..k], a[0], b[k + 1..]);
    }
  }

  lemma {:induction false} RangesConcat(src: Text, x: seq<Edit>, y: seq<Edit>)
    requires RangesOf(src, x).Ok? && RangesOf(src, y).Ok?
    ensures RangesOf(src, x + y) == Ok(RangesOf(src, x).value + RangesOf(src, y).value)
    decreases |y|
  {
    if y == [] {
      assert x + y == x;
      assert RangesOf(src, x).value + [] == RangesOf(src, x).value;
    } else {
      var y' := y[..|y| - 1];
      assert (x + y)[..|x + y| - 1] == x + y';
      RangesConcat(src, x, y');
      assert RangesOf(src, x).value + RangesOf(src, y).value
          == (RangesOf(src, x).value + RangesOf(src, y').value) + [RangeOf(src, y[|y| - 1]).value];
    }
  }

  lemma {:induction false} RangesExist(src: Text, edits: seq<Edit>)
    ensures RangesOf(src, edits).Ok? <==> forall e | e in edits :: RangeOf(src, e).Ok?
  {
    if edits != [] {
      var before := edits[..|edits| - 1];
      RangesExist(src, before);
      assert forall e :: e in edits <==> e in before || e == edits[|edits| - 1];
    }
  }

  lemma SingleRange(src: Text, e: Edit)
    requires RangeOf(src, e).Ok?
    ensures RangesOf(src, [e]) == Ok([RangeOf(src, e).value])
  {
    var range := RangeOf(src, e).value;
    assert [e][..|[e]| - 1] == [];
    assert RangesOf(src, []) == Ok([]);
    assert [] + [range] == [range];
  }

  lemma RangesMiddle(src: Text, x: seq<Edit>, e: Edit, y: seq<Edit>)
    requires RangesOf(src, x).Ok? && RangeOf(src, e).Ok? && RangesOf(src, y).Ok?
    ensures RangesOf(src, x + ([e] + y))
         == Ok(RangesOf(src, x).value + ([RangeOf(src, e).value] + RangesOf(src, y).value))
  {
    SingleRange(src, e);
    RangesConcat(src, [e], y);
    RangesConcat(src, x, [e] + y);
  }

  lemma RangesOfParts(src: Text, x: seq<Edit>, e: Edit, y: seq<Edit>)
    requires RangesOf(src, x + ([e] + y)).Ok?
    ensures RangesOf(src, x).Ok? && RangeOf(src, e).Ok? && RangesOf(src, y).Ok?
  {
    RangesExist(src, x + ([e] + y));
    RangesExist(src, x);
    RangesExist(src, y);
    assert forall z :: z in x + ([e] + y) <==> z in x || z == e || z in y;
  }

  lemma MultisetMiddle<T>(x: seq<T>, r: T, y: seq<T>)
    ensures multiset(x + ([r] + y)) == multiset([r]) + multiset(x + y)
  {
  }

  /** The ranges as a multiset, one edit taken out. */
  lemma RangesWithout(src: Text, edits: seq<Edit>, k: nat)
    requires k < |edits| && RangesOf(src, edits).Ok?
    ensures RangeOf(src, edits[k]).Ok? && RangesOf(src, edits[..k] + edits[k + 1..]).Ok?
    ensures multiset(RangesOf(src, edits).value)
         == multiset([RangeOf(src, edits[k]).value]) + multiset(RangesOf(src, edits[..k] + edits[k + 1..]).value)
  {
    var x, e, y := edits[..k], edits[k], edits[k + 1..];
    MultisetWithout(edits, k);
    RangesOfParts(src, x, e, y);
    RangesMiddle(src, x, e, y);
    RangesConcat(src, x, y);
    MultisetMiddle(RangesOf(src, x).value, RangeOf(src, e).value, RangesOf(src, y).value);
  }

  lemma RangesTail(src: Text, edits: seq<Edit>)
    requires edits != [] && RangesOf(src, edits).Ok?
    ensures RangeOf(src, edits[0]).Ok? && RangesOf(src, edits[1..]).Ok?
    ensures multiset(RangesOf(src, edits).value)
         == multiset([RangeOf(src, edits[0]).value]) + multiset(RangesOf(src, edits[1..]).value)
  {
    RangesWithout(src, edits, 0);
    assert edits[..0] + edits[1..] == edits[1..];
  }

  lemma RangesStillExist(src: Text, a: seq<Edit>, b: seq<Edit>)
    requires multiset(a) == multiset(b) && RangesOf(src, a).Ok?
    ensures RangesOf(src, b).Ok?
  {
    RangesExist(src, a);
    RangesExist(src, b);
    SameElements(a, b);
  }

  lemma {:induction false} RangesPermuted(src: Text, a: seq<Edit>, b: seq<Edit>)
    requires multiset(a) == multiset(b) && RangesOf(src, a).Ok?
    ensures RangesOf(src, b).Ok? && multiset(RangesOf(src, a).value) == multiset(RangesOf(src, b).value)
    decreases |a|
  {
    RangesStillExist(src, a, b);
    if a == [] {
      assert |multiset(b)| == 0;
    } else {
      var k := MultisetHead(a, b);
      RangesTail(src, a);
      RangesPermuted(src, a[1..], b[..k] + b[k + 1..]);
      RangesWithout(src, b, k);
    }
  }

  /** The outcome does not depend on the order in which the edits are given. */
  lemma OrderDoesNotMatter(src: Text, a: seq<Edit>, b: seq<Edit>)
    requires multiset(a) == multiset(b)
    ensures Replaced(src, a).Ok? <==> Replaced(src, b).Ok?
    ensures Replaced(src, a).Ok? ==> Replaced(src, a) == Replaced(src, b)
  {
    if Replaced(src, a).Ok? {
      OrderOneWay(src, a, b);
    }
    if Replaced(src, b).Ok? {
      OrderOneWay(src, b, a);
    }
  }

  lemma OrderOneWay(src: Text, a: seq<Edit>, b: seq<Edit>)
    requires multiset(a) == multiset(b) && Replaced(src, a).Ok?
    ensures Replaced(src, a) == Replaced(src, b)
  {
    assert |multiset(a)| == |a| && |multiset(b)| == |b|;
    RangesPermuted(src, a, b);
    var ra, rb := RangesOf(src, a).value, RangesOf(src, b).value;
    RangesPlaced(src, a);
    RangesPlaced(src, b);
    DisjointPermuted(ra, rb);
    SameElements(ra, rb);
    RewriteSame(src, ra, rb, 0);
  }

  /** The old text of the edit is not empty and occurs once. */
  ghost predicate Unique(src: Text, e: Edit) {
    e.oldText != [] && exists p: nat :: OnlyAround(src, e.oldText, p)
  }

  /** The places where the old texts of the edits occur do not touch each other's characters. */
  ghost predicate PlacesApart(src: Text, edits: seq<Edit>) {
    forall i, j, p: nat, q: nat | 0 <= i < j < |edits|
      && OnlyAround(src, edits[i].oldText, p) && OnlyAround(src, edits[j].oldText, q) ::
      p + |edits[i].oldText| <= q || q + |edits[j].oldText| <= p
  }

  lemma RangeIsThePlace(src: Text, e: Edit)
    ensures RangeOf(src, e).Ok? <==> Unique(src, e)
    ensures RangeOf(src, e).Ok? ==>
              var r := RangeOf(src, e).value;
              r.end == r.start + |e.oldText| && forall p: nat :: OnlyAround(src, e.oldText, p) <==> p == r.start
  {
    if e.oldText != [] {
      OccursOnce(src, e.oldText);
      MatchesSpaced(src, e.oldText, 0);
      if RangeOf(src, e).Ok? {
        var at := RangeOf(src, e).value.start;
        var p: nat :| OnlyAround(src, e.oldText, p);
        MatchesComplete(src, e.oldText, 0, p);
        assert MatchAt(src, e.oldText, at) && p == at;
      }
    }
  }

  lemma {:induction false} DisjointPairwise(s: seq<Range>)
    ensures Disjoint(s) <==> forall i, j | 0 <= i < j < |s| :: Apart(s[i], s[j])
  {
    if s != [] {
      DisjointPairwise(s[1..]);
      if Disjoint(s) {
        forall i, j | 0 <= i < j < |s| ensures Apart(s[i], s[j]) {
          assert s[j] == s[1..][j - 1];
          if i > 0 {
            assert s[i] == s[1..][i - 1];
          }
        }
      }
      if forall i, j | 0 <= i < j < |s| :: Apart(s[i], s[j]) {
        forall x | x in s[1..] ensures Apart(s[0], x) {
          var j :| 0 <= j < |s[1..]| && s[1..][j] == x;
          assert s[j + 1] == x;
        }
        assert forall i | 0 <= i < |s| - 1 :: s[1..][i] == s[i + 1];
      }
    }
  }

  /** It succeeds exactly when there is an edit, every old text is non-empty and occurs once, and the places
      are apart. */
  lemma SucceedsExactlyWhen(src: Text, edits: seq<Edit>)
    ensures Replaced(src, edits).Ok? <==>
            edits != [] && (forall e | e in edits :: Unique(src, e)) && PlacesApart(src, edits)
  {
    RangesExist(src, edits);
    forall e | e in edits ensures RangeOf(src, e).Ok? <==> Unique(src, e) {
      RangeIsThePlace(src, e);
    }
    if RangesOf(src, edits).Ok? {
      PlacesAreRanges(src, edits);
    }
  }

  lemma PlacesAreRanges(src: Text, edits: seq<Edit>)
    requires RangesOf(src, edits).Ok?
    ensures Disjoint(RangesOf(src, edits).value) <==> PlacesApart(src, edits)
  {
    var ranges := RangesOf(src, edits).value;
    RangesInOrder(src, edits);
    DisjointPairwise(ranges);
    forall i | 0 <= i < |edits|
      ensures ranges[i].end == ranges[i].start + |edits[i].oldText|
      ensures forall p: nat :: OnlyAround(src, edits[i].oldText, p) <==> p == ranges[i].start
    {
      RangeIsThePlace(src, edits[i]);
    }
    if PlacesApart(src, edits) {
      forall i, j | 0 <= i < j < |ranges| ensures Apart(ranges[i], ranges[j]) {
        assert OnlyAround(src, edits[i].oldText, ranges[i].start) && OnlyAround(src, edits[j].oldText, ranges[j].start);
      }
    }
  }

  // ---- Right to left, one at a time ----

  function ReplaceOne(src: Text, r: Range): Text
    requires r.start <= r.end <= |src|
  {
    src[..r.start] + r.text + src[r.end..]
  }

  lemma {:induction false} LastFirst(src: Text, s: seq<Range>, last: Range, from: nat)
    requires Ahead(src, s + [last], from)
    ensures from <= last.start < last.end <= |src|
    ensures Ahead(ReplaceOne(src, last), s, from) && (s != [] ==> s[|s| - 1].end <= last.start)
    ensures OnePass(src, s + [last], from) == OnePass(ReplaceOne(src, last), s, from)
    decreases |s|
  {
    var all := s + [last];
    AheadStarts(src, all, from);
    assert last in all;
    var src' := ReplaceOne(src, last);
    if s == [] {
      assert all[1..] == [];
      ReplacedAfter(src, last, from, from);
    } else {
      assert all[1..] == s[1..] + [last];
      LastFirst(src, s[1..], last, s[0].end);
      ReplacedAfter(src, last, from, s[0].start);
    }
  }

  lemma ReplacedAfter(src: Text, r: Range, i: nat, j: nat)
    requires i <= j <= r.start <= r.end <= |src|
    ensures |ReplaceOne(src, r)| >= r.start
    ensures ReplaceOne(src, r)[i..j] == src[i..j]
    ensures ReplaceOne(src, r)[i..] == src[i..r.start] + r.text + src[r.end..]
  {
  }

  /** Replacing the ranges one by one in the source, the last one first. */
  function RightToLeft(src: Text, s: seq<Range>): Text
    requires Ahead(src, s, 0)
    decreases |s|
  {
    if s == [] then src
    else
      var before, last := s[..|s| - 1], s[|s| - 1];
      assert s == before + [last];
      LastFirst(src, before, last, 0);
      RightToLeft(ReplaceOne(src, last), before)
  }

  /** The single pass with a cursor gives what single replacements give when made right to left. */
  lemma {:induction false} OnePassIsRightToLeft(src: Text, s: seq<Range>)
    requires Ahead(src, s, 0)
    ensures OnePass(src, s, 0) == RightToLeft(src, s)
    decreases |s|
  {
    if s == [] {
      assert src[0..] == src;
    } else {
      var before, last := s[..|s| - 1], s[|s| - 1];
      assert s == before + [last];
      LastFirst(src, before, last, 0);
      OnePassIsRightToLeft(ReplaceOne(src, last), before);
    }
  }

  /** So simultaneous replacement is single replacements made right to left, each in the text left by the last. */
  lemma ReplacedRightToLeft(src: Text, edits: seq<Edit>)
    requires Replaced(src, edits).Ok?
    ensures var s := SortByStart(RangesOf(src, edits).value);
            Ahead(src, s, 0) && Replaced(src, edits) == Ok(RightToLeft(src, s))
  {
    var ranges := RangesOf(src, edits).value;
    RangesPlaced(src, edits);
    SortedPassRewrites(src, ranges);
    OnePassIsRightToLeft(src, SortByStart(ranges));
  }

  // ---- Length ----

  function Growth(s: seq<Range>): int {
    if s == [] then 0 else |s[0].text| - (s[0].end - s[0].start) + Growth(s[1..])
  }

  lemma {:induction false} OnePassLength(src: Text, s: seq<Range>, cursor: nat)
    requires Ahead(src, s, cursor)
    ensures |OnePass(src, s, cursor)| == |src| - cursor + Growth(s)
    decreases |s|
  {
    if s != [] {
      AheadStarts(src, s, cursor);
      OnePassLength(src, s[1..], s[0].end);
    }
  }

  lemma {:induction false} InsertGrowth(r: Range, s: seq<Range>)
    ensures Growth(Insert(r, s)) == Growth([r]) + Growth(s)
  {
    assert [r][1..] == [];
    if s == [] || r.start <= s[0].start {
      assert ([r] + s)[1..] == s;
    } else {
      InsertGrowth(r, s[1..]);
      assert Insert(r, s)[1..] == Insert(r, s[1..]);
    }
  }

  lemma {:induction false} SortGrowth(ranges: seq<Range>)
    ensures Growth(SortByStart(ranges)) == Growth(ranges)
  {
    if ranges != [] {
      SortGrowth(ranges[1..]);
      InsertGrowth(ranges[0], SortByStart(ranges[1..]));
      assert [ranges[0]][1..] == [];
    }
  }

  function EditGrowth(edits: seq<Edit>): int {
    if edits == [] then 0 else |edits[0].newText| - |edits[0].oldText| + EditGrowth(edits[1..])
  }

  lemma {:induction false} SameGrowth(edits: seq<Edit>, ranges: seq<Range>)
    requires |edits| == |ranges|
    requires forall i | 0 <= i < |edits| ::
      ranges[i].text == edits[i].newText && ranges[i].end - ranges[i].start == |edits[i].oldText|
    ensures Growth(ranges) == EditGrowth(edits)
  {
    if edits != [] {
      SameGrowth(edits[1..], ranges[1..]);
    }
  }

  /** The text grows by what each edit adds. */
  lemma LengthChange(src: Text, edits: seq<Edit>)
    requires Replaced(src, edits).Ok?
    ensures |Replaced(src, edits).value| == |src| + EditGrowth(edits)
  {
    var ranges := RangesOf(src, edits).value;
    RangesPlaced(src, edits);
    RewriteLength(src, ranges);
    RangesFit(src, edits);
    SameGrowth(edits, ranges);
  }

  lemma RangesFit(src: Text, edits: seq<Edit>)
    requires RangesOf(src, edits).Ok?
    ensures var ranges := RangesOf(src, edits).value;
            forall i | 0 <= i < |edits| ::
              ranges[i].text == edits[i].newText && ranges[i].end - ranges[i].start == |edits[i].oldText|
  {
    RangesInOrder(src, edits);
  }

  lemma RewriteLength(src: Text, ranges: seq<Range>)
    requires Placed(src, ranges) && Disjoint(ranges)
    ensures |Rewrite(src, ranges, 0)| == |src| + Growth(ranges)
  {
    SortedPassRewrites(src, ranges);
    OnePassLength(src, SortByStart(ranges), 0);
    SortGrowth(ranges);
  }
}
