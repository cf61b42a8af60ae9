/** Searching a text for a pattern, leftmost first and without overlaps, as the standard string functions do.
    Texts are byte sequences; a text in UTF-8 contains a pattern in UTF-8 exactly where its bytes do. */
module Scanner {
  import opened Prelude

  type Text = seq<byte>

  const LF: byte := 10
  const CR: byte := 13

  /** The bytes of a text in ASCII. */
  function Ascii(s: string): (t: Text)
    ensures |t| == |s|
  {
    seq(|s|, i requires 0 <= i < |s| => s[i] as int % 256)
  }

  /** `s` without the run of `c` at its end. */
  function TrimEnd(s: Text, c: byte): Text {
    if s != [] && s[|s| - 1] == c then TrimEnd(s[..|s| - 1], c) else s
  }

  lemma {:induction false} TrimEndExactly(s: Text, c: byte)
    ensures TrimEnd(s, c) <= s && forall i | |TrimEnd(s, c)| <= i < |s| :: s[i] == c
    ensures TrimEnd(s, c) != [] ==> TrimEnd(s, c)[|TrimEnd(s, c)| - 1] != c
  {
    if s != [] && s[|s| - 1] == c {
      TrimEndExactly(s[..|s| - 1], c);
    }
  }

  predicate MatchAt(s: Text, pat: Text, i: nat) {
    i + |pat| <= |s| && s[i..i + |pat|] == pat
  }

  /** The same, character by character. */
  predicate Agrees(s: Text, pat: Text, i: nat) {
    pat == [] || (i < |s| && s[i] == pat[0] && Agrees(s, pat[1..], i + 1))
  }

  lemma {:induction false} AgreesIsMatch(s: Text, pat: Text, i: nat)
    requires i + |pat| <= |s|
    ensures Agrees(s, pat, i) <==> MatchAt(s, pat, i)
    decreases |pat|
  {
    if pat == [] {
      assert s[i..i] == [];
    } else {
      AgreesIsMatch(s, pat[1..], i + 1);
      HeadAndTail(s, pat, i);
    }
  }

  lemma HeadAndTail(s: Text, pat: Text, i: nat)
    requires pat != [] && i + |pat| <= |s|
    ensures s[i..i + |pat|] == pat <==> s[i] == pat[0] && s[i + 1..i + |pat|] == pat[1..]
  {
    assert s[i..i + |pat|] == [s[i]] + s[i + 1..i + |pat|];
    assert pat == [pat[0]] + pat[1..];
  }

  /** The first match at or after `i`. */
  function FindFrom(s: Text, pat: Text, i: nat): (r: Option<nat>)
    ensures r.Some? ==> i <= r.value && r.value + |pat| <= |s|
    decreases |s| - i
  {
    if i + |pat| > |s| then None
    else if Agrees(s, pat, i) then Some(i)
    else FindFrom(s, pat, i + 1)
  }

  lemma {:induction false} FindsFirst(s: Text, pat: Text, i: nat)
    ensures FindFrom(s, pat, i).Some? ==>
              && MatchAt(s, pat, FindFrom(s, pat, i).value)
              && forall k: nat | i <= k < FindFrom(s, pat, i).value :: !MatchAt(s, pat, k)
    ensures FindFrom(s, pat, i).None? ==> forall k: nat | i <= k :: !MatchAt(s, pat, k)
    decreases |s| - i
  {
    if i + |pat| <= |s| {
      AgreesIsMatch(s, pat, i);
      if !Agrees(s, pat, i) {
        FindsFirst(s, pat, i + 1);
      }
    }
  }

  lemma {:induction false} FirstIs(s: Text, pat: Text, i: nat, j: nat)
    requires i <= j && MatchAt(s, pat, j)
    requires forall k: nat | i <= k < j :: !MatchAt(s, pat, k)
    ensures FindFrom(s, pat, i) == Some(j)
    decreases j - i
  {
    AgreesIsMatch(s, pat, i);
    if i < j {
      FirstIs(s, pat, i + 1, j);
    }
  }

  /** All matches at or after `i`, leftmost first, the search resuming after the end of each. */
  function Matches(s: Text, pat: Text, i: nat): seq<nat>
    requires pat != []
    decreases |s| - i
  {
    match FindFrom(s, pat, i)
    case None => []
    case Some(j) => [j] + Matches(s, pat, j + |pat|)
  }

  /** Position `p` lies within one of the matches. */
  ghost predicate Covered(ms: seq<nat>, m: nat, p: nat) {
    exists k :: 0 <= k < |ms| && ms[k] <= p < ms[k] + m
  }

  /** Matches at or after `i`, in order and without overlaps. */
  ghost predicate Spaced(s: Text, pat: Text, ms: seq<nat>, i: nat) {
    ms == [] || (i <= ms[0] && MatchAt(s, pat, ms[0]) && Spaced(s, pat, ms[1..], ms[0] + |pat|))
  }

  lemma MatchesStep(s: Text, pat: Text, i: nat, j: nat)
    requires pat != [] && FindFrom(s, pat, i) == Some(j)
    ensures Matches(s, pat, i) == [j] + Matches(s, pat, j + |pat|)
    ensures Matches(s, pat, i)[1..] == Matches(s, pat, j + |pat|)
  {
  }

  lemma NoMatches(s: Text, pat: Text, i: nat)
    requires pat != [] && FindFrom(s, pat, i) == None
    ensures Matches(s, pat, i) == []
  {
  }

  lemma {:induction false} MatchesSpaced(s: Text, pat: Text, i: nat)
    requires pat != []
    ensures Spaced(s, pat, Matches(s, pat, i), i)
    decreases |s| - i
  {
    match FindFrom(s, pat, i)
    case None =>
    case Some(j) =>
      FindsFirst(s, pat, i);
      MatchesStep(s, pat, i, j);
      MatchesSpaced(s, pat, j + |pat|);
  }

  /** They leave no room: any other match starts within one of them. */
  lemma {:induction false} MatchesComplete(s: Text, pat: Text, i: nat, p: nat)
    requires pat != [] && i <= p && MatchAt(s, pat, p)
    ensures Covered(Matches(s, pat, i), |pat|, p)
    decreases |s| - i
  {
    FindsFirst(s, pat, i);
    var j := FindFrom(s, pat, i).value;
    var rest := Matches(s, pat, j + |pat|);
    var ms := Matches(s, pat, i);
    assert ms == [j] + rest;
    if p < j + |pat| {
      assert ms[0] <= p < ms[0] + |pat|;
    } else {
      MatchesComplete(s, pat, j + |pat|, p);
      var k :| 0 <= k < |rest| && rest[k] <= p < rest[k] + |pat|;
      assert ms[k + 1] == rest[k];
    }
  }

  /** There is a match at `p`, and every match starts within it. */
  ghost predicate OnlyAround(s: Text, pat: Text, p: nat) {
    MatchAt(s, pat, p) && forall q: nat | MatchAt(s, pat, q) :: p <= q < p + |pat|
  }

  /** Counting leftmost matches without overlaps, a pattern occurs exactly once when it occurs somewhere and
      every occurrence starts within that one. */
  lemma OccursOnce(s: Text, pat: Text)
    requires pat != []
    ensures |Matches(s, pat, 0)| == 1 <==> exists p: nat :: OnlyAround(s, pat, p)
  {
    var ms := Matches(s, pat, 0);
    MatchesSpaced(s, pat, 0);
    if |ms| == 1 {
      forall q: nat | MatchAt(s, pat, q) ensures ms[0] <= q < ms[0] + |pat| {
        MatchesComplete(s, pat, 0, q);
      }
      assert OnlyAround(s, pat, ms[0]);
    }
    if p: nat :| OnlyAround(s, pat, p) {
      MatchesComplete(s, pat, 0, p);
    }
  }

  // ---- Splitting by a pattern ----

  /** Places of length `m` at or after `from`, in order and within the text. */
  ghost predicate InOrder(s: Text, ms: seq<nat>, m: nat, from: nat) {
    from <= |s| && (ms == [] || (from <= ms[0] && ms[0] + m <= |s| && InOrder(s, ms[1..], m, ms[0] + m)))
  }

  /** The pieces of the text from `from` on, between the places `ms`. */
  function Pieces(s: Text, ms: seq<nat>, m: nat, from: nat): (r: seq<Text>)
    requires InOrder(s, ms, m, from)
    ensures |r| == |ms| + 1
  {
    if ms == [] then [s[from..]] else [s[from..ms[0]]] + Pieces(s, ms[1..], m, ms[0] + m)
  }

  lemma {:induction false} SpacedInOrder(s: Text, pat: Text, ms: seq<nat>, from: nat)
    requires Spaced(s, pat, ms, from) && from <= |s|
    ensures InOrder(s, ms, |pat|, from)
  {
    if ms != [] {
      SpacedInOrder(s, pat, ms[1..], ms[0] + |pat|);
    }
  }

  lemma MatchesInOrder(s: Text, pat: Text, from: nat)
    requires pat != [] && from <= |s|
    ensures InOrder(s, Matches(s, pat, from), |pat|, from)
  {
    MatchesSpaced(s, pat, from);
    SpacedInOrder(s, pat, Matches(s, pat, from), from);
  }

  /** The pieces between the matches of `pat`. */
  function Split(s: Text, pat: Text): (r: seq<Text>)
    requires pat != []
    ensures |r| == |Matches(s, pat, 0)| + 1
  {
    MatchesInOrder(s, pat, 0);
    Pieces(s, Matches(s, pat, 0), |pat|, 0)
  }

  lemma PiecesStep(s: Text, ms: seq<nat>, m: nat, i: nat, j: nat, later: seq<nat>)
    requires ms == [j] + later && InOrder(s, ms, m, i)
    ensures InOrder(s, later, m, j + m)
    ensures Pieces(s, ms, m, i) == [s[i..j]] + Pieces(s, later, m, j + m)
  {
    assert ms[1..] == later;
  }

  lemma SplitOnce(s: Text, pat: Text, n: nat)
    requires pat != [] && FindFrom(s, pat, 0) == Some(n) && FindFrom(s, pat, n + |pat|) == None
    ensures Split(s, pat) == [s[..n], s[n + |pat|..]]
  {
    MatchesStep(s, pat, 0, n);
    NoMatches(s, pat, n + |pat|);
    MatchesInOrder(s, pat, 0);
    PiecesAroundOne(s, Matches(s, pat, 0), |pat|, n);
  }

  lemma PiecesAroundOne(s: Text, ms: seq<nat>, m: nat, n: nat)
    requires ms == [n] && InOrder(s, ms, m, 0)
    ensures Pieces(s, ms, m, 0) == [s[..n], s[n + m..]]
  {
    assert ms[1..] == [];
  }

  lemma {:induction false} FindInSuffix(s: Text, pat: Text, d: nat, i: nat)
    requires d <= |s|
    ensures FindFrom(s, pat, d + i).None? ==> FindFrom(s[d..], pat, i) == None
    ensures FindFrom(s, pat, d + i).Some? ==> FindFrom(s[d..], pat, i) == Some(FindFrom(s, pat, d + i).value - d)
    decreases |s| - i
  {
    if d + i + |pat| <= |s| {
      AgreesInSuffix(s, pat, d, i);
      if !Agrees(s, pat, d + i) {
        FindInSuffix(s, pat, d, i + 1);
      }
    }
  }

  lemma {:induction false} AgreesInSuffix(s: Text, pat: Text, d: nat, i: nat)
    requires d <= |s|
    ensures Agrees(s[d..], pat, i) <==> Agrees(s, pat, d + i)
    decreases |pat|
  {
    if pat != [] && d + i < |s| {
      AgreesInSuffix(s, pat[1..], d, i + 1);
    }
  }

  function Concat(pieces: seq<Text>): Text {
    if pieces == [] then [] else pieces[0] + Concat(pieces[1..])
  }

  lemma {:induction false} ConcatMore(pieces: seq<Text>, last: Text)
    ensures Concat(pieces + [last]) == Concat(pieces) + last
  {
    if pieces == [] {
      assert [last][1..] == [] && last + [] == last;
    } else {
      assert (pieces + [last])[1..] == pieces[1..] + [last];
      ConcatMore(pieces[1..], last);
      assert pieces[0] + (Concat(pieces[1..]) + last) == (pieces[0] + Concat(pieces[1..])) + last;
    }
  }
}
