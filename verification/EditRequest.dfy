/** A request to the `edit` tool, in its list form or in its older form with one pair of strings. */
module EditRequest {
  import opened Prelude
  import opened Scanner
  import opened Edit

  datatype EditReq = EditReq(edits: seq<Edit>, oldString: Option<Text>, newString: Option<Text>, replaceAll: bool)

  /** The new text, and how many replacements it holds. */
  datatype Reply = Reply(text: Text, count: nat)

  /** Every match from `i` on replaced, the search resuming after the end of each. */
  function ReplaceEvery(src: Text, pat: Text, sub: Text, i: nat): Text
    requires pat != [] && i <= |src|
    decreases |src| - i
  {
    match FindFrom(src, pat, i)
    case None => src[i..]
    case Some(j) => src[i..j] + sub + ReplaceEvery(src, pat, sub, j + |pat|)
  }

  /** The older form. */
  function Legacy(src: Text, pat: Text, sub: Text, replaceAll: bool): Result<Reply, EditError> {
    if pat == [] then Err(EmptyOld)
    else
      var found := Matches(src, pat, 0);
      if found == [] then Err(NotFound)
      else if |found| > 1 && !replaceAll then Err(Ambiguous(|found|))
      else if replaceAll then Ok(Reply(ReplaceEvery(src, pat, sub, 0), |found|))
      else
        MatchesSpaced(src, pat, 0);
        Ok(Reply(ReplaceOne(src, Range(found[0], found[0] + |pat|, sub)), |found|))
  }

  ghost function Outcome(src: Text, req: EditReq): Result<Reply, EditError> {
    if req.oldString.None? && req.newString.None? then
      match Replaced(src, req.edits)
      case Err(e) => Err(e)
      case Ok(text) => Ok(Reply(text, |req.edits|))
    else if req.edits != [] then Err(BothForms)
    else if req.oldString.None? then Err(NeedsOld)
    else if req.newString.None? then Err(NeedsNew)
    else Legacy(src, req.oldString.value, req.newString.value, req.replaceAll)
  }

  // ---- What the replies and errors mean ----

  /** The list form reports as many replacements as there are edits, and makes them. */
  lemma ListReply(src: Text, edits: seq<Edit>, replaceAll: bool)
    ensures var r := Outcome(src, EditReq(edits, None, None, replaceAll));
            && (r.Ok? ==> r.value.count == |edits| && Replaced(src, edits) == Ok(r.value.text))
            && (r.Ok? <==> Replaced(src, edits).Ok?)
  {
  }

  /** A request in neither form, in both, or in half of the older one is refused as such. */
  lemma FormErrors(src: Text, req: EditReq)
    ensures var r := Outcome(src, req);
            && (r == Err(BothForms) <==> (req.oldString != None || req.newString != None) && |req.edits| > 0)
            && (r == Err(NeedsOld) <==> req.oldString == None && req.newString != None && |req.edits| == 0)
            && (r == Err(NeedsNew) <==> req.oldString != None && req.newString == None && |req.edits| == 0)
            && (r == Err(NoEdits) <==> req.oldString == None && req.newString == None && |req.edits| == 0)
  {
    if req.oldString.None? && req.newString.None? && req.edits != [] && Replaced(src, req.edits).Err? {
      ListErrors(src, req.edits);
    }
  }

  /** Why one text has no place in another: it is empty, it does not occur, or it occurs more than once. */
  ghost predicate Explains(src: Text, pat: Text, e: EditError) {
    match e
    case EmptyOld => pat == []
    case NotFound => pat != [] && forall i: nat :: !MatchAt(src, pat, i)
    case Ambiguous(count) => pat != [] && count > 1 && count == |Split(src, pat)| - 1
    case _ => false
  }

  lemma Explained(src: Text, edit: Edit)
    requires RangeOf(src, edit).Err?
    ensures Explains(src, edit.oldText, RangeOf(src, edit).error)
  {
    if edit.oldText != [] {
      FindsFirst(src, edit.oldText, 0);
    }
  }

  /** The error of the list form is that of the first edit that has no place; an overlap is reported only when all
      have one. */
  lemma {:induction false} ListErrors(src: Text, edits: seq<Edit>)
    requires edits != [] && Replaced(src, edits).Err?
    ensures var e := Replaced(src, edits).error;
            if RangesOf(src, edits).Ok? then e == Overlap
            else exists k :: 0 <= k < |edits| && RangesOf(src, edits[..k]).Ok? && Explains(src, edits[k].oldText, e)
  {
    if RangesOf(src, edits).Err? {
      var k := FirstWithout(src, edits);
      Explained(src, edits[k]);
    }
  }

  lemma {:induction false} FirstWithout(src: Text, edits: seq<Edit>) returns (k: nat)
    requires RangesOf(src, edits).Err?
    ensures k < |edits| && RangesOf(src, edits[..k]).Ok? && RangeOf(src, edits[k]).Err?
    ensures RangesOf(src, edits).error == RangeOf(src, edits[k]).error
  {
    var before := edits[..|edits| - 1];
    if RangesOf(src, before).Err? {
      k := FirstWithout(src, before);
      assert before[..k] == edits[..k];
    } else {
      k := |edits| - 1;
    }
  }

  /** The errors of the older form. */
  lemma LegacyErrors(src: Text, pat: Text, sub: Text, replaceAll: bool)
    ensures var r := Outcome(src, EditReq([], Some(pat), Some(sub), replaceAll));
            r.Err? ==> Explains(src, pat, r.error) && (r.error.Ambiguous? ==> !replaceAll)
  {
    if pat != [] {
      FindsFirst(src, pat, 0);
    }
  }

  // ---- The two forms agree on a single edit ----

  /** For one pair of strings the two forms give the same text and count, or both refuse for the same reason. */
  lemma FormsAgree(src: Text, pat: Text, sub: Text, replaceAll: bool)
    ensures Outcome(src, EditReq([], Some(pat), Some(sub), false))
         == Outcome(src, EditReq([Edit(pat, sub)], None, None, replaceAll))
  {
    var e := Edit(pat, sub);
    assert [e][..|[e]| - 1] == [];
    assert RangesOf(src, []) == Ok([]);
    if RangeOf(src, e).Ok? {
      var r := RangeOf(src, e).value;
      SingleRange(src, e);
      RangesPlaced(src, [e]);
      assert r in [r];
      assert [r][1..] == [];
      assert Disjoint([r]);
      SingleRewrite(src, r);
    }
  }

  lemma SingleRewrite(src: Text, r: Range)
    requires r.start < r.end <= |src|
    ensures Rewrite(src, [r], 0) == ReplaceOne(src, r)
  {
    assert [r][1..] == [];
    assert Ahead(src, [], r.end);
    assert Ahead(src, [r], 0);
    assert [] + [r] == [r];
    OnePassRewrites(src, [], [r], 0);
    assert src[0..r.start] == src[..r.start];
  }

  // ---- Replacing every occurrence ----

  function Join(pieces: seq<Text>, sep: Text): Text
    requires pieces != []
  {
    if |pieces| == 1 then pieces[0] else pieces[0] + sep + Join(pieces[1..], sep)
  }

  lemma EveryStep(src: Text, pat: Text, sub: Text, i: nat, j: nat)
    requires pat != [] && i <= |src| && FindFrom(src, pat, i) == Some(j)
    ensures ReplaceEvery(src, pat, sub, i) == src[i..j] + sub + ReplaceEvery(src, pat, sub, j + |pat|)
  {
  }

  lemma {:induction false} ReplaceIsJoin(
    src: Text, pat: Text, sub: Text, i: nat, ms: seq<nat>, text: Text, pieces: seq<Text>)
    requires pat != [] && i <= |src| && ms == Matches(src, pat, i) && InOrder(src, ms, |pat|, i)
    requires text == ReplaceEvery(src, pat, sub, i) && pieces == Pieces(src, ms, |pat|, i)
    ensures text == Join(pieces, sub)
    decreases |src| - i
  {
    match FindFrom(src, pat, i)
    case None =>
      NoMatches(src, pat, i);
    case Some(j) =>
      var later, rest := Matches(src, pat, j + |pat|), ReplaceEvery(src, pat, sub, j + |pat|);
      MatchesStep(src, pat, i, j);
      PiecesStep(src, ms, |pat|, i, j, later);
      var more := Pieces(src, later, |pat|, j + |pat|);
      ReplaceIsJoin(src, pat, sub, j + |pat|, later, rest, more);
      EveryStep(src, pat, sub, i, j);
      JoinCons(src[i..j], more, sub);
  }

  /** Replacing every match is splitting by the old text and joining by the new one. */
  lemma ReplaceIsSplitJoin(src: Text, pat: Text, sub: Text)
    requires pat != []
    ensures ReplaceEvery(src, pat, sub, 0) == Join(Split(src, pat), sub)
  {
    MatchesInOrder(src, pat, 0);
    ReplaceIsJoin(src, pat, sub, 0, Matches(src, pat, 0), ReplaceEvery(src, pat, sub, 0), Split(src, pat));
  }

  lemma JoinCons(piece: Text, pieces: seq<Text>, sep: Text)
    requires pieces != []
    ensures Join([piece] + pieces, sep) == piece + sep + Join(pieces, sep)
  {
    assert ([piece] + pieces)[1..] == pieces;
  }

  lemma {:induction false} JoinPieces(s: Text, pat: Text, ms: seq<nat>, from: nat)
    requires Spaced(s, pat, ms, from) && InOrder(s, ms, |pat|, from)
    ensures Join(Pieces(s, ms, |pat|, from), pat) == s[from..]
  {
    if ms != [] {
      var next := ms[0] + |pat|;
      JoinPieces(s, pat, ms[1..], next);
      JoinCons(s[from..ms[0]], Pieces(s, ms[1..], |pat|, next), pat);
      ThreeSlices(s, from, ms[0], next);
    }
  }

  lemma ThreeSlices(s: Text, i: nat, j: nat, k: nat)
    requires i <= j <= k <= |s|
    ensures s[i..j] + s[j..k] + s[k..] == s[i..]
  {
  }

  /** Splitting loses nothing: joined by the old text again, the pieces make the source. */
  lemma JoinSplit(s: Text, pat: Text)
    requires pat != []
    ensures Join(Split(s, pat), pat) == s
  {
    MatchesSpaced(s, pat, 0);
    MatchesInOrder(s, pat, 0);
    JoinPieces(s, pat, Matches(s, pat, 0), 0);
    assert s[0..] == s;
  }

  /** Joining by another text changes the length by the difference, once for every joint. */
  lemma {:induction false} JoinLengths(pieces: seq<Text>, a: Text, b: Text)
    requires pieces != []
    ensures |Join(pieces, a)| - |Join(pieces, b)| == (|pieces| - 1) * (|a| - |b|)
  {
    if |pieces| > 1 {
      JoinLengths(pieces[1..], a, b);
      OneMoreTime(|pieces| - 2, |a| - |b|);
    }
  }

  lemma OneMoreTime(n: nat, d: int)
    ensures (n + 1) * d == n * d + d
  {
  }

  /** Bulk replacement: the source split by the old text and joined by the new one, the reported count the
      number of joints, and the length changed by that many times the difference. */
  lemma BulkReplace(src: Text, pat: Text, sub: Text)
    ensures var r := Outcome(src, EditReq([], Some(pat), Some(sub), true));
            && (r.Ok? <==> pat != [] && |Split(src, pat)| > 1)
            && (r.Ok? ==> && r.value.text == Join(Split(src, pat), sub)
                          && r.value.count == |Split(src, pat)| - 1
                          && |r.value.text| == |src| + r.value.count * (|sub| - |pat|))
  {
    if pat != [] {
      ReplaceIsSplitJoin(src, pat, sub);
      JoinSplit(src, pat);
      JoinLengths(Split(src, pat), sub, pat);
    }
  }

  /** Where the old text occurs once, replacing one match and replacing all are the same. */
  lemma OneMatchEitherWay(src: Text, pat: Text, sub: Text)
    requires pat != [] && |Matches(src, pat, 0)| == 1
    ensures Outcome(src, EditReq([], Some(pat), Some(sub), true))
         == Outcome(src, EditReq([], Some(pat), Some(sub), false))
  {
    var j := FindFrom(src, pat, 0).value;
    MatchesSpaced(src, pat, 0);
    MatchesStep(src, pat, 0, j);
    EveryStep(src, pat, sub, 0, j);
    assert Matches(src, pat, j + |pat|) == [];
    assert src[0..j] == src[..j];
  }

  // ---- The tool ----

  /** The first edit that has no range decides the error. */
  lemma {:induction false} FirstError(src: Text, edits: seq<Edit>, k: nat)
    requires k <= |edits| && RangesOf(src, edits[..k]).Err?
    ensures RangesOf(src, edits) == RangesOf(src, edits[..k])
    decreases |edits|
  {
    if k == |edits| {
      assert edits[..k] == edits;
    } else {
      var before := edits[..|edits| - 1];
      assert before[..k] == edits[..k];
      FirstError(src, before, k);
    }
  }

  lemma RangesStep(src: Text, edits: seq<Edit>, k: nat)
    requires k < |edits| && RangesOf(src, edits[..k]).Ok?
    ensures RangeOf(src, edits[k]).Ok? ==>
              RangesOf(src, edits[..k + 1]) == Ok(RangesOf(src, edits[..k]).value + [RangeOf(src, edits[k]).value])
    ensures RangeOf(src, edits[k]).Err? ==> RangesOf(src, edits) == Err(RangeOf(src, edits[k]).error)
  {
    assert edits[..k + 1][..k] == edits[..k];
    if RangeOf(src, edits[k]).Err? {
      FirstError(src, edits, k + 1);
    }
  }

  lemma {:induction false} ChainedNeighbours(s: seq<Range>)
    ensures Chained(s) <==> forall k | 0 < k < |s| :: s[k - 1].end <= s[k].start
  {
    if |s| > 1 {
      ChainedNeighbours(s[1..]);
      if Chained(s[1..]) && s[0].end <= s[1].start {
        forall k | 0 < k < |s| ensures s[k - 1].end <= s[k].start {
          if k > 1 {
            assert s[1..][k - 2].end <= s[1..][k - 1].start;
          }
        }
      }
    }
  }

  method SortedRanges(src: Text, edits: seq<Edit>) returns (r: Result<seq<Range>, EditError>)
    ensures r == match RangesOf(src, edits) { case Err(e) => Err(e) case Ok(ranges) => Ok(SortByStart(ranges)) }
  {
    var ranges := [];
    for k := 0 to |edits|
      invariant RangesOf(src, edits[..k]) == Ok(ranges)
    {
      RangesStep(src, edits, k);
      var edit := edits[k];
      if edit.oldText == [] {
        return Err(EmptyOld);
      }
      var found := Matches(src, edit.oldText, 0);
      if found == [] {
        return Err(NotFound);
      }
      if |found| > 1 {
        return Err(Ambiguous(|found|));
      }
      ranges := ranges + [Range(found[0], found[0] + |edit.oldText|, edit.newText)];
    }
    assert edits[..|edits|] == edits;
    return Ok(SortByStart(ranges));
  }

  method NeighboursApart(sorted: seq<Range>) returns (ok: bool)
    ensures ok <==> Chained(sorted)
  {
    ChainedNeighbours(sorted);
    var k := 1;
    while k < |sorted|
      invariant 1 <= k && forall j | 0 < j < k && j < |sorted| :: sorted[j - 1].end <= sorted[j].start
    {
      if sorted[k].start < sorted[k - 1].end {
        return false;
      }
      k := k + 1;
    }
    return true;
  }

  lemma SpliceStep(src: Text, sorted: seq<Range>, k: nat, cursor: nat, out: Text)
    requires k < |sorted| && Ahead(src, sorted[k..], cursor)
    ensures cursor <= sorted[k].start <= |src| && Ahead(src, sorted[k + 1..], sorted[k].end)
    ensures out + OnePass(src, sorted[k..], cursor)
         == (out + src[cursor..sorted[k].start] + sorted[k].text) + OnePass(src, sorted[k + 1..], sorted[k].end)
  {
    AheadStarts(src, sorted[k..], cursor);
    assert sorted[k..][0] == sorted[k] && sorted[k..][1..] == sorted[k + 1..];
  }

  method Splice(src: Text, sorted: seq<Range>) returns (out: Text)
    requires Ahead(src, sorted, 0)
    ensures out == OnePass(src, sorted, 0)
  {
    out := [];
    var cursor: nat := 0;
    assert sorted[0..] == sorted;
    for k := 0 to |sorted|
      invariant Ahead(src, sorted[k..], cursor)
      invariant out + OnePass(src, sorted[k..], cursor) == OnePass(src, sorted, 0)
    {
      var range := sorted[k];
      AheadStarts(src, sorted[k..], cursor);
      SpliceStep(src, sorted, k, cursor, out);
      out := out + src[cursor..range.start];
      out := out + range.text;
      cursor := range.end;
    }
    out := out + src[cursor..];
  }

  /** Does what `Outcome` says: simultaneous replacement, by one pass over the sorted ranges. */
  method ApplyEditReq(src: Text, req: EditReq) returns (r: Result<Reply, EditError>)
    ensures r == Outcome(src, req)
  {
    var legacy := req.oldString.Some? || req.newString.Some?;
    if legacy && req.edits != [] {
      return Err(BothForms);
    }
    if legacy {
      if req.oldString.None? {
        return Err(NeedsOld);
      }
      if req.newString.None? {
        return Err(NeedsNew);
      }
      return Legacy(src, req.oldString.value, req.newString.value, req.replaceAll);
    }
    if req.edits == [] {
      return Err(NoEdits);
    }
    var sorted := SortedRanges(src, req.edits);
    if sorted.Err? {
      return Err(sorted.error);
    }
    RangesPlaced(src, req.edits);
    SortedPassRewrites(src, RangesOf(src, req.edits).value);
    var apart := NeighboursApart(sorted.value);
    if !apart {
      return Err(Overlap);
    }
    var out := Splice(src, sorted.value);
    return Ok(Reply(out, |req.edits|));
  }
}
