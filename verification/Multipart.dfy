/** The extraction of the first file from a multipart body in e2b-shim (section 5.1.1 of RFC 2046). */
module Multipart {
  import opened Prelude
  import opened Scanner

  const CRLF: Text := [CR, LF]
  const BLANK_LINE: Text := [CR, LF, CR, LF]
  const DASHES: Text := [45, 45]
  const QUOTE: byte := 34
  /** "boundary=" */
  const KEY: Text := [98, 111, 117, 110, 100, 97, 114, 121, 61]

  // ---- The boundary ----

  function TrimStart(s: Text): Text {
    if s != [] && s[0] == QUOTE then TrimStart(s[1..]) else s
  }

  /** What stands between the first two mentions of the key, without quotes around it. */
  function Boundary(contentType: Text): Option<Text> {
    var pieces := Split(contentType, KEY);
    if |pieces| < 2 then None else Some(TrimEnd(TrimStart(pieces[1]), QUOTE))
  }

  // ---- The part ----

  function SkipCrLf(part: Text): Text {
    if CRLF <= part then part[2..] else part
  }

  function StripCrLf(s: Text): Text {
    if |s| >= 2 && s[|s| - 2..] == CRLF then s[..|s| - 2] else s
  }

  function Payload(part: Text): Option<Text> {
    var rest := SkipCrLf(part);
    match FindFrom(rest, BLANK_LINE, 0)
    case None => None
    case Some(h) => Some(StripCrLf(rest[h + 4..]))
  }

  /** What stands between the first two delimiters. */
  function FirstPart(sep: Text, body: Text): Option<Text>
    requires sep != []
  {
    var ms := Matches(body, sep, 0);
    if |ms| < 2 then None
    else
      TwoMatches(body, sep);
      Some(body[ms[0] + |sep|..ms[1]])
  }

  lemma TwoMatches(body: Text, sep: Text)
    requires sep != [] && |Matches(body, sep, 0)| >= 2
    ensures var ms := Matches(body, sep, 0); ms[0] + |sep| <= ms[1] <= |body|
  {
    MatchesSpaced(body, sep, 0);
    var ms := Matches(body, sep, 0);
    assert ms[1..][0] == ms[1];
  }

  function PayloadOfFirst(sep: Text, body: Text): Option<Text>
    requires sep != []
  {
    match FirstPart(sep, body)
    case None => None
    case Some(part) => Payload(part)
  }

  function Extract(contentType: Text, body: Text): Option<Text> {
    match Boundary(contentType)
    case None => None
    case Some(boundary) => PayloadOfFirst(DASHES + boundary, body)
  }

  // ---- Finding the boundary ----

  lemma MatchChar(s: Text, pat: Text, k: nat, t: nat)
    requires MatchAt(s, pat, k) && t < |pat|
    ensures s[k + t] == pat[t] && s[k + t] in pat
  {
    assert s[k..k + |pat|][t] == pat[t];
  }

  lemma MatchInside(s: Text, pat: Text, k: nat, a: nat, x: Text)
    requires a + |x| <= |s| && s[a..a + |x|] == x && MatchAt(s, pat, k) && a <= k && k + |pat| <= a + |x|
    ensures MatchAt(x, pat, k - a)
  {
    var i := k - a;
    SliceOfSlice(s, a, |x|, i, i + |pat|);
    assert x[i..i + |pat|] == s[k..k + |pat|];
  }

  lemma NoneInside(s: Text, pat: Text, k: nat, a: nat, x: Text)
    requires a + |x| <= |s| && s[a..a + |x|] == x && a <= k && k + |pat| <= a + |x|
    requires FindFrom(x, pat, 0) == None
    ensures !MatchAt(s, pat, k)
  {
    FindsFirst(x, pat, 0);
    if MatchAt(s, pat, k) {
      MatchInside(s, pat, k, a, x);
    }
  }

  lemma Mismatch(s: Text, pat: Text, k: nat, t: nat)
    requires t < |pat| && k + t < |s| && s[k + t] != pat[t]
    ensures !MatchAt(s, pat, k)
  {
    if MatchAt(s, pat, k) {
      MatchChar(s, pat, k, t);
    }
  }

  lemma SliceOfSlice(s: Text, a: nat, n: nat, i: nat, j: nat)
    requires a + n <= |s| && i <= j <= n
    ensures s[a..a + n][i..j] == s[a + i..a + j]
  {
    var l, r := s[a..a + n][i..j], s[a + i..a + j];
    assert |l| == |r|;
    assert forall t | 0 <= t < |l| :: l[t] == r[t];
  }

  lemma KeyAt(prefix: Text, rest: Text)
    ensures var s, n := prefix + KEY + rest, |prefix|;
            s[0..n] == prefix && MatchAt(s, KEY, n) && forall i | n <= i < n + 8 :: s[i] != 61
  {
    var s, n := prefix + KEY + rest, |prefix|;
    Middle(prefix, KEY, rest);
    assert |KEY| == 9 && s[n..n + |KEY|] == KEY;
    assert s[0..n] == prefix;
    forall i | n <= i < n + 8 ensures s[i] != 61 {
      assert s[i] == KEY[i - n];
    }
  }

  /** The key does not overlap itself, as its last character occurs nowhere else in it. */
  lemma KeyComesFirst(prefix: Text, rest: Text)
    requires FindFrom(prefix, KEY, 0) == None
    ensures FindFrom(prefix + KEY + rest, KEY, 0) == Some(|prefix|)
  {
    var s := prefix + KEY + rest;
    KeyAt(prefix, rest);
    forall k: nat | k < |prefix| ensures !MatchAt(s, KEY, k) {
      if k + 9 <= |prefix| {
        NoneInside(s, KEY, k, 0, prefix);
      } else {
        Mismatch(s, KEY, k, 8);
      }
    }
    FirstIs(s, KEY, 0, |prefix|);
  }

  /** No quote at either end. */
  predicate Bare(b: Text) {
    b != [] ==> b[0] != QUOTE && b[|b| - 1] != QUOTE
  }

  lemma BoundaryFound(prefix: Text, b: Text, quoted: bool)
    requires FindFrom(prefix, KEY, 0) == None && Bare(b)
    requires FindFrom(if quoted then [QUOTE] + b + [QUOTE] else b, KEY, 0) == None
    ensures Boundary(prefix + KEY + if quoted then [QUOTE] + b + [QUOTE] else b) == Some(b)
  {
    var rest := if quoted then [QUOTE] + b + [QUOTE] else b;
    var s := prefix + KEY + rest;
    KeyComesFirst(prefix, rest);
    KeyOnce(prefix, rest);
    assert Split(s, KEY)[1] == rest;
    if quoted {
      TrimQuoted(b);
    }
  }

  lemma KeyOnce(prefix: Text, rest: Text)
    requires FindFrom(prefix, KEY, 0) == None && FindFrom(rest, KEY, 0) == None
    ensures Split(prefix + KEY + rest, KEY) == [prefix, rest]
  {
    var s, n := prefix + KEY + rest, |prefix|;
    KeyComesFirst(prefix, rest);
    assert s[n + |KEY|..] == rest && s[..n] == prefix;
    NoneInSuffix(s, KEY, n + |KEY|, rest);
    SplitOnce(s, KEY, n);
  }

  lemma NoneInSuffix(s: Text, pat: Text, d: nat, rest: Text)
    requires d <= |s| && rest == s[d..] && FindFrom(rest, pat, 0) == None
    ensures FindFrom(s, pat, d) == None
  {
    FindInSuffix(s, pat, d, 0);
  }

  lemma TrimQuoted(b: Text)
    requires Bare(b)
    ensures TrimEnd(TrimStart([QUOTE] + b + [QUOTE]), QUOTE) == b
  {
    var s, t := [QUOTE] + b + [QUOTE], b + [QUOTE];
    assert s[0] == QUOTE && s[1..] == t;
    if b == [] {
      assert t[0] == QUOTE && t[1..] == [];
      assert TrimStart(t) == [];
    } else {
      assert t[0] == b[0] && t[|t| - 1] == QUOTE && t[..|t| - 1] == b;
      assert TrimStart(t) == t;
    }
  }

  predicate AllQuotes(s: Text) {
    forall i | 0 <= i < |s| :: s[i] == QUOTE
  }

  lemma {:induction false} TrimStartQuotes(quotes: Text, rest: Text)
    requires AllQuotes(quotes) && rest != [] && rest[0] != QUOTE
    ensures TrimStart(quotes + rest) == rest
  {
    if quotes == [] {
      assert quotes + rest == rest;
    } else {
      assert (quotes + rest)[1..] == quotes[1..] + rest;
      TrimStartQuotes(quotes[1..], rest);
    }
  }

  lemma TrimEndQuotes(b: Text, more: Text)
    requires b != [] && Bare(b)
    ensures TrimEnd(b + more, QUOTE) == b <==> AllQuotes(more)
  {
    var s, r := b + more, TrimEnd(b + more, QUOTE);
    TrimEndExactly(s, QUOTE);
    assert s[|b| - 1] != QUOTE;
    assert forall i | |b| <= i < |s| :: s[i] == more[i - |b|];
    assert forall i | 0 <= i < |more| :: s[|b| + i] == more[i];
  }

  /** Whatever follows the boundary becomes part of it, except quotes at the very end: the boundary is found
      exactly when it is the last parameter. */
  lemma BoundaryExactlyWhen(prefix: Text, quotes: Text, b: Text, more: Text)
    requires FindFrom(prefix, KEY, 0) == None && FindFrom(quotes + (b + more), KEY, 0) == None
    requires AllQuotes(quotes) && b != [] && Bare(b)
    ensures Boundary(prefix + KEY + (quotes + (b + more))) == Some(TrimEnd(b + more, QUOTE))
    ensures Boundary(prefix + KEY + (quotes + (b + more))) == Some(b) <==> AllQuotes(more)
  {
    KeyOnce(prefix, quotes + (b + more));
    TrimStartQuotes(quotes, b + more);
    TrimEndQuotes(b, more);
  }

  /** A key mentioned again ends the boundary. */
  lemma BoundaryEndsAtNextKey(prefix: Text, mid: Text, rest: Text)
    requires FindFrom(prefix, KEY, 0) == None && FindFrom(mid, KEY, 0) == None
    ensures Boundary(prefix + KEY + (mid + KEY + rest)) == Some(TrimEnd(TrimStart(mid), QUOTE))
  {
    var s, d := prefix + KEY + (mid + KEY + rest), |prefix| + |KEY|;
    KeyComesFirst(prefix, mid + KEY + rest);
    KeyComesFirst(mid, rest);
    assert s[d..] == mid + KEY + rest;
    FindInSuffix(s, KEY, d, 0);
    assert s[d..d + |mid|] == mid;
    SecondPiece(s, KEY, |prefix|, d + |mid|);
  }

  lemma SecondPiece(s: Text, pat: Text, i: nat, j: nat)
    requires pat != [] && FindFrom(s, pat, 0) == Some(i) && FindFrom(s, pat, i + |pat|) == Some(j)
    ensures |Split(s, pat)| >= 3 && i + |pat| <= j <= |s| && Split(s, pat)[1] == s[i + |pat|..j]
  {
    MatchesStep(s, pat, 0, i);
    MatchesStep(s, pat, i + |pat|, j);
    MatchesInOrder(s, pat, 0);
    var later, last := Matches(s, pat, i + |pat|), Matches(s, pat, j + |pat|);
    PiecesStep(s, Matches(s, pat, 0), |pat|, 0, i, later);
    PiecesStep(s, later, |pat|, i + |pat|, j, last);
  }

  /** And without a key there is none. */
  lemma NoBoundary(contentType: Text)
    requires FindFrom(contentType, KEY, 0) == None
    ensures Boundary(contentType) == None && forall body :: Extract(contentType, body) == None
  {
    NoMatches(contentType, KEY, 0);
  }

  // ---- Finding the delimiters ----

  /** Neither CR nor LF. */
  ghost predicate OneLine(sep: Text) {
    CR !in sep && LF !in sep
  }

  lemma NotAtBarrier(s: Text, sep: Text, k: nat)
    requires sep != [] && k < |s| && s[k] !in sep
    ensures !MatchAt(s, sep, k)
  {
    if MatchAt(s, sep, k) {
      MatchChar(s, sep, k, 0);
    }
  }

  /** In a piece of `s` at `a` there is no match before the piece's first one; and if it has none and something
      foreign to the delimiter follows, none that starts in it either. */
  lemma QuietPiece(s: Text, sep: Text, a: nat, x: Text, k: nat)
    requires sep != [] && a + |x| <= |s| && s[a..a + |x|] == x && a <= k
    requires FindFrom(x, sep, 0).Some? ==> k < a + FindFrom(x, sep, 0).value
    requires FindFrom(x, sep, 0).None? ==> k <= a + |x| < |s| && s[a + |x|] !in sep
    ensures !MatchAt(s, sep, k)
  {
    if MatchAt(s, sep, k) {
      FindsFirst(x, sep, 0);
      if k + |sep| <= a + |x| {
        MatchInside(s, sep, k, a, x);
      } else {
        MatchChar(s, sep, k, a + |x| - k);
      }
    }
  }

  lemma PartIs(sep: Text, body: Text, at: nat)
    requires sep != [] && MatchAt(body, sep, 0) && |sep| <= at && MatchAt(body, sep, at)
    requires forall k: nat | |sep| <= k < at :: !MatchAt(body, sep, k)
    ensures FirstPart(sep, body) == Some(body[|sep|..at])
  {
    FirstIs(body, sep, 0, 0);
    FirstIs(body, sep, |sep|, at);
    MatchesStep(body, sep, 0, 0);
    MatchesStep(body, sep, |sep|, at);
  }

  // ---- The round trip ----

  /** One part between delimiters. */
  function Body(sep: Text, headers: Text, payload: Text, tail: Text): Text {
    Concat([sep, CRLF, headers, BLANK_LINE, payload, CRLF, sep, tail])
  }

  lemma ConcatCons(piece: Text, pieces: seq<Text>)
    ensures Concat([piece] + pieces) == piece + Concat(pieces)
  {
    assert ([piece] + pieces)[1..] == pieces;
  }

  lemma ConcatFour(a: Text, b: Text, c: Text, d: Text, pieces: seq<Text>)
    ensures Concat([a, b, c, d] + pieces) == a + b + c + d + Concat(pieces)
  {
    assert [a, b, c, d] + pieces == [a] + ([b] + ([c] + ([d] + pieces)));
    ConcatCons(d, pieces);
    ConcatCons(c, [d] + pieces);
    ConcatCons(b, [c] + ([d] + pieces));
    ConcatCons(a, [b] + ([c] + ([d] + pieces)));
  }

  lemma BodyIs(sep: Text, headers: Text, payload: Text, tail: Text)
    ensures Body(sep, headers, payload, tail)
         == sep + CRLF + headers + BLANK_LINE + payload + CRLF + sep + tail
  {
    var rest := [payload, CRLF, sep, tail];
    ConcatFour(payload, CRLF, sep, tail, []);
    assert rest + [] == rest;
    ConcatFour(sep, CRLF, headers, BLANK_LINE, rest);
    assert [sep, CRLF, headers, BLANK_LINE] + rest == [sep, CRLF, headers, BLANK_LINE, payload, CRLF, sep, tail];
  }

  /** Headers that hold no blank line and need none of their own newline to make one. */
  predicate Clean(headers: Text) {
    FindFrom(headers, BLANK_LINE, 0) == None && !(|headers| >= 2 && headers[|headers| - 2..] == CRLF)
  }

  lemma EndsOtherwise(headers: Text)
    requires Clean(headers) && |headers| >= 2
    ensures headers[|headers| - 2] != CR || headers[|headers| - 1] != LF
  {
    assert headers[|headers| - 2..] == [headers[|headers| - 2], headers[|headers| - 1]];
  }

  lemma BlankLineAfter(headers: Text, rest: Text)
    requires Clean(headers)
    ensures FindFrom(headers + BLANK_LINE + rest, BLANK_LINE, 0) == Some(|headers|)
  {
    var s, n := headers + BLANK_LINE + rest, |headers|;
    assert s[0..n] == headers && s[n] == CR && s[n..n + 4] == BLANK_LINE;
    if n >= 2 {
      EndsOtherwise(headers);
    }
    forall k: nat | k < n ensures !MatchAt(s, BLANK_LINE, k) {
      if k + 4 <= n {
        NoneInside(s, BLANK_LINE, k, 0, headers);
      } else if k + 2 == n {
        Mismatch(s, BLANK_LINE, k, if s[k] == CR then 1 else 0);
      } else {
        Mismatch(s, BLANK_LINE, k, n - k);
      }
    }
    FirstIs(s, BLANK_LINE, 0, n);
  }

  lemma PayloadOf(headers: Text, rest: Text)
    requires Clean(headers)
    ensures Payload(CRLF + headers + BLANK_LINE + rest) == Some(StripCrLf(rest))
  {
    var part := CRLF + headers + BLANK_LINE + rest;
    assert part[2..] == headers + BLANK_LINE + rest;
    BlankLineAfter(headers, rest);
    assert (headers + BLANK_LINE + rest)[|headers| + 4..] == rest;
  }

  lemma NoPayload(cut: Text)
    requires FindFrom(cut, BLANK_LINE, 0) == None
    ensures Payload(CRLF + cut) == None
  {
    assert (CRLF + cut)[2..] == cut;
  }

  predicate EndsLine(x: Text) {
    |x| >= 2 && x[|x| - 2] == CR && x[|x| - 1] == LF
  }

  /** The payload of any part: a line end that starts the part is skipped, the payload starts after the first blank
      line, and one line end that closes it is cut off. */
  lemma PayloadExactly(lead: Text, rest: Text, head: Text, x: Text)
    requires lead == CRLF || (lead == [] && !(CRLF <= rest))
    requires rest == head + BLANK_LINE + x && FindFrom(rest, BLANK_LINE, 0) == Some(|head|)
    ensures Payload(lead + rest) == Some(if EndsLine(x) then x[..|x| - 2] else x)
  {
    SkipsOne(lead, rest);
    assert rest[|head| + 4..] == x;
    PayloadAfter(lead + rest, rest, |head|, x);
    StripsOne(x);
  }

  lemma PayloadAfter(part: Text, rest: Text, h: nat, x: Text)
    requires SkipCrLf(part) == rest && FindFrom(rest, BLANK_LINE, 0) == Some(h) && h + 4 <= |rest| && rest[h + 4..] == x
    ensures Payload(part) == Some(StripCrLf(x))
  {
  }

  lemma SkipsOne(lead: Text, rest: Text)
    requires lead == CRLF || (lead == [] && !(CRLF <= rest))
    ensures SkipCrLf(lead + rest) == rest
  {
    assert (CRLF + rest)[2..] == rest && [] + rest == rest;
  }

  lemma StripsOne(x: Text)
    ensures StripCrLf(x) == if EndsLine(x) then x[..|x| - 2] else x
  {
    assert |x| >= 2 ==> x[|x| - 2..] == [x[|x| - 2], x[|x| - 1]];
  }

  lemma NoneInPrefix(s: Text, pat: Text, k: nat)
    requires FindFrom(s, pat, 0) == None && k <= |s|
    ensures FindFrom(s[..k], pat, 0) == None
  {
    FindsFirst(s, pat, 0);
    FindsFirst(s[..k], pat, 0);
    if FindFrom(s[..k], pat, 0).Some? {
      MatchInPrefix(s, k, pat, FindFrom(s[..k], pat, 0).value);
    }
  }

  lemma MatchInPrefix(s: Text, k: nat, pat: Text, j: nat)
    requires k <= |s| && MatchAt(s[..k], pat, j)
    ensures MatchAt(s, pat, j)
  {
    assert s[..k][j..j + |pat|] == s[j..j + |pat|];
  }

  /** Where the pieces of the body are. */
  lemma Layout(sep: Text, headers: Text, payload: Text, tail: Text)
    ensures var s := Body(sep, headers, payload, tail);
            var h := |sep| + 2;
            var p := h + |headers| + 4;
            var e := p + |payload|;
            && |s| == e + 2 + |sep| + |tail|
            && MatchAt(s, sep, 0)
            && s[|sep|] == CR && s[|sep| + 1] == LF
            && s[h..h + |headers|] == headers
            && s[p - 4] == CR && s[p - 3] == LF && s[p - 2] == CR && s[p - 1] == LF
            && s[p..e] == payload
            && s[e] == CR && s[e + 1] == LF
            && MatchAt(s, sep, e + 2)
  {
    BodyIs(sep, headers, payload, tail);
  }

  /** Where the second delimiter is found, and what stands before it. */
  function SecondDelimiter(sep: Text, headers: Text, payload: Text): nat {
    match FindFrom(headers, sep, 0)
    case Some(f) => |sep| + 2 + f
    case None =>
      match FindFrom(payload, sep, 0)
      case Some(f) => |sep| + 2 + |headers| + 4 + f
      case None => |sep| + 2 + |headers| + 4 + |payload| + 2
  }

  /** No match from `h - 2` on and before the first one in the headers at `h` or the payload at `p`, or the one
      after them. */
  lemma NoneBefore(s: Text, sep: Text, h: nat, headers: Text, p: nat, payload: Text, k: nat)
    requires sep != [] && OneLine(sep) && 2 <= h && p == h + |headers| + 4 && p + |payload| + 2 <= |s|
    requires s[h - 2] == CR && s[h - 1] == LF && s[h..h + |headers|] == headers
    requires s[p - 4] == CR && s[p - 3] == LF && s[p - 2] == CR && s[p - 1] == LF && s[p..p + |payload|] == payload
    requires s[p + |payload|] == CR && s[p + |payload| + 1] == LF
    requires h - 2 <= k < p + |payload| + 2
    requires FindFrom(headers, sep, 0).Some? ==> k < h + FindFrom(headers, sep, 0).value
    requires FindFrom(headers, sep, 0).None? && FindFrom(payload, sep, 0).Some? ==>
               k < p + FindFrom(payload, sep, 0).value
    ensures !MatchAt(s, sep, k)
  {
    if k < h || h + |headers| < k < p || p + |payload| < k {
      NotAtBarrier(s, sep, k);
    } else if k <= h + |headers| {
      QuietPiece(s, sep, h, headers, k);
    } else {
      QuietPiece(s, sep, p, payload, k);
    }
  }

  lemma NoneBeforeSecond(sep: Text, headers: Text, payload: Text, tail: Text, k: nat)
    requires sep != [] && OneLine(sep) && |sep| <= k < SecondDelimiter(sep, headers, payload)
    ensures !MatchAt(Body(sep, headers, payload, tail), sep, k)
  {
    Layout(sep, headers, payload, tail);
    var h := |sep| + 2;
    NoneBefore(Body(sep, headers, payload, tail), sep, h, headers, h + |headers| + 4, payload, k);
  }

  lemma MatchInPiece(s: Text, sep: Text, a: nat, x: Text, f: nat)
    requires a + |x| <= |s| && s[a..a + |x|] == x && FindFrom(x, sep, 0) == Some(f)
    ensures MatchAt(s, sep, a + f)
  {
    FindsFirst(x, sep, 0);
    SliceOfSlice(s, a, |x|, f, f + |sep|);
  }

  lemma MatchAtSecond(sep: Text, headers: Text, payload: Text, tail: Text)
    ensures MatchAt(Body(sep, headers, payload, tail), sep, SecondDelimiter(sep, headers, payload))
  {
    Layout(sep, headers, payload, tail);
    MatchAtOneOf(Body(sep, headers, payload, tail), sep, headers, payload);
  }

  lemma MatchAtOneOf(s: Text, sep: Text, headers: Text, payload: Text)
    requires var h := |sep| + 2;
             var p := h + |headers| + 4;
             && p + |payload| <= |s| && s[h..h + |headers|] == headers && s[p..p + |payload|] == payload
             && MatchAt(s, sep, p + |payload| + 2)
    ensures MatchAt(s, sep, SecondDelimiter(sep, headers, payload))
  {
    var h, p := FindFrom(headers, sep, 0), FindFrom(payload, sep, 0);
    if h != None {
      MatchInPiece(s, sep, |sep| + 2, headers, h.value);
    } else if p != None {
      MatchInPiece(s, sep, |sep| + 2 + |headers| + 4, payload, p.value);
    }
  }

  lemma PartFound(sep: Text, headers: Text, payload: Text, tail: Text)
    requires sep != [] && OneLine(sep)
    ensures var s, at := Body(sep, headers, payload, tail), SecondDelimiter(sep, headers, payload);
            |sep| <= at <= |s| && FirstPart(sep, s) == Some(s[|sep|..at])
  {
    var s, at := Body(sep, headers, payload, tail), SecondDelimiter(sep, headers, payload);
    Layout(sep, headers, payload, tail);
    MatchAtSecond(sep, headers, payload, tail);
    forall k: nat | |sep| <= k < at ensures !MatchAt(s, sep, k) {
      NoneBeforeSecond(sep, headers, payload, tail, k);
    }
    PartIs(sep, s, at);
  }

  lemma Middle(a: Text, x: Text, b: Text)
    ensures (a + x + b)[|a|..|a| + |x|] == x
  {
  }

  lemma CutInHeaders(sep: Text, headers: Text, payload: Text, tail: Text, f: nat)
    requires f <= |headers|
    ensures var s, at := Body(sep, headers, payload, tail), |sep| + 2 + f;
            at <= |s| && s[|sep|..at] == CRLF + headers[..f]
  {
    BodyIs(sep, headers, payload, tail);
    var rest := headers[f..] + BLANK_LINE + payload + CRLF + sep + tail;
    assert Body(sep, headers, payload, tail) == sep + (CRLF + headers[..f]) + rest;
    Middle(sep, CRLF + headers[..f], rest);
  }

  lemma CutInPayload(sep: Text, headers: Text, payload: Text, tail: Text, f: nat)
    requires f <= |payload|
    ensures var s, at := Body(sep, headers, payload, tail), |sep| + 2 + |headers| + 4 + f;
            at <= |s| && s[|sep|..at] == CRLF + headers + BLANK_LINE + payload[..f]
  {
    BodyIs(sep, headers, payload, tail);
    var rest := payload[f..] + CRLF + sep + tail;
    assert Body(sep, headers, payload, tail) == sep + (CRLF + headers + BLANK_LINE + payload[..f]) + rest;
    Middle(sep, CRLF + headers + BLANK_LINE + payload[..f], rest);
  }

  lemma CutAfterPayload(sep: Text, headers: Text, payload: Text, tail: Text)
    ensures var s, at := Body(sep, headers, payload, tail), |sep| + 2 + |headers| + 4 + |payload| + 2;
            at <= |s| && s[|sep|..at] == CRLF + headers + BLANK_LINE + (payload + CRLF)
  {
    BodyIs(sep, headers, payload, tail);
    assert Body(sep, headers, payload, tail) == sep + (CRLF + headers + BLANK_LINE + (payload + CRLF)) + (sep + tail);
    Middle(sep, CRLF + headers + BLANK_LINE + (payload + CRLF), sep + tail);
  }

  lemma PartInHeaders(sep: Text, headers: Text, payload: Text, tail: Text, f: nat)
    requires sep != [] && OneLine(sep) && FindFrom(headers, sep, 0) == Some(f)
    ensures FirstPart(sep, Body(sep, headers, payload, tail)) == Some(CRLF + headers[..f])
  {
    assert SecondDelimiter(sep, headers, payload) == |sep| + 2 + f;
    PartFound(sep, headers, payload, tail);
    CutInHeaders(sep, headers, payload, tail, f);
  }

  lemma PartInPayload(sep: Text, headers: Text, payload: Text, tail: Text, f: nat)
    requires sep != [] && OneLine(sep)
    requires FindFrom(headers, sep, 0) == None && FindFrom(payload, sep, 0) == Some(f)
    ensures FirstPart(sep, Body(sep, headers, payload, tail)) == Some(CRLF + headers + BLANK_LINE + payload[..f])
  {
    assert SecondDelimiter(sep, headers, payload) == |sep| + 2 + |headers| + 4 + f;
    PartFound(sep, headers, payload, tail);
    CutInPayload(sep, headers, payload, tail, f);
  }

  lemma PartWhole(sep: Text, headers: Text, payload: Text, tail: Text)
    requires sep != [] && OneLine(sep) && FindFrom(headers, sep, 0) == None && FindFrom(payload, sep, 0) == None
    ensures FirstPart(sep, Body(sep, headers, payload, tail)) == Some(CRLF + headers + BLANK_LINE + (payload + CRLF))
  {
    PartFound(sep, headers, payload, tail);
    CutAfterPayload(sep, headers, payload, tail);
  }

  lemma PayloadOfPart(sep: Text, body: Text, part: Text)
    requires sep != [] && FirstPart(sep, body) == Some(part)
    ensures PayloadOfFirst(sep, body) == Payload(part)
  {
  }

  /** What is extracted, exactly: nothing if the delimiter is in the headers; */
  lemma ExtractedIfInHeaders(sep: Text, headers: Text, payload: Text, tail: Text, f: nat)
    requires sep != [] && OneLine(sep) && Clean(headers) && FindFrom(headers, sep, 0) == Some(f)
    ensures PayloadOfFirst(sep, Body(sep, headers, payload, tail)) == None
  {
    PartInHeaders(sep, headers, payload, tail, f);
    NoneInPrefix(headers, BLANK_LINE, f);
    NoPayload(headers[..f]);
    PayloadOfPart(sep, Body(sep, headers, payload, tail), CRLF + headers[..f]);
  }

  /** what precedes the first delimiter in the payload, if there is one; */
  lemma ExtractedIfInPayload(sep: Text, headers: Text, payload: Text, tail: Text, f: nat)
    requires sep != [] && OneLine(sep) && Clean(headers)
    requires FindFrom(headers, sep, 0) == None && FindFrom(payload, sep, 0) == Some(f)
    ensures PayloadOfFirst(sep, Body(sep, headers, payload, tail)) == Some(StripCrLf(payload[..f]))
  {
    PartInPayload(sep, headers, payload, tail, f);
    PayloadOf(headers, payload[..f]);
    PayloadOfPart(sep, Body(sep, headers, payload, tail), CRLF + headers + BLANK_LINE + payload[..f]);
  }

  /** and otherwise the payload. */
  lemma ExtractedIfInNeither(sep: Text, headers: Text, payload: Text, tail: Text)
    requires sep != [] && OneLine(sep) && Clean(headers)
    requires FindFrom(headers, sep, 0) == None && FindFrom(payload, sep, 0) == None
    ensures PayloadOfFirst(sep, Body(sep, headers, payload, tail)) == Some(payload)
  {
    PartWhole(sep, headers, payload, tail);
    PayloadOf(headers, payload + CRLF);
    StripAdded(payload);
    PayloadOfPart(sep, Body(sep, headers, payload, tail), CRLF + headers + BLANK_LINE + (payload + CRLF));
  }

  lemma StripAdded(payload: Text)
    ensures StripCrLf(payload + CRLF) == payload
  {
  }

  // ---- A preamble ----

  /** Whole lines, without a delimiter. */
  ghost predicate Preamble(pre: Text, sep: Text) {
    FindFrom(pre, sep, 0) == None && (pre == [] || pre[|pre| - 1] == LF)
  }

  lemma FirstAfterPreamble(pre: Text, sep: Text, body: Text)
    requires sep != [] && OneLine(sep) && Preamble(pre, sep) && MatchAt(body, sep, 0)
    ensures FindFrom(pre + body, sep, 0) == Some(|pre|)
  {
    var s, d := pre + body, |pre|;
    assert s[d..] == body;
    SliceOfSlice(s, d, |body|, 0, |sep|);
    forall k: nat | k < d ensures !MatchAt(s, sep, k) {
      if k + |sep| <= d {
        NoneInside(s, sep, k, 0, pre);
      } else {
        assert s[d - 1] == LF;
        Mismatch(s, sep, k, d - 1 - k);
      }
    }
    FirstIs(s, sep, 0, d);
  }

  /** The second match of a text whose first one is at `d`. */
  lemma TwoFirst(s: Text, sep: Text, d: nat)
    requires sep != [] && FindFrom(s, sep, 0) == Some(d)
    ensures var second := FindFrom(s, sep, d + |sep|);
            FirstPart(sep, s) == if second == None then None else Some(s[d + |sep|..second.value])
  {
    MatchesStep(s, sep, 0, d);
    if FindFrom(s, sep, d + |sep|) == None {
      NoMatches(s, sep, d + |sep|);
    } else {
      MatchesStep(s, sep, d + |sep|, FindFrom(s, sep, d + |sep|).value);
    }
  }

  lemma SecondShifted(s: Text, sep: Text, d: nat, body: Text, first: nat)
    requires d <= |s| && body == s[d..] && first <= |body|
    ensures var second, second' := FindFrom(s, sep, d + first), FindFrom(body, sep, first);
            && (second == None <==> second' == None)
            && (second != None ==> second.value == d + second'.value
                                   && s[d + first..second.value] == body[first..second'.value])
  {
    FindInSuffix(s, sep, d, first);
  }

  lemma SamePart(s: Text, sep: Text, d: nat, body: Text)
    requires sep != [] && d <= |s| && body == s[d..]
    requires FindFrom(s, sep, 0) == Some(d) && FindFrom(body, sep, 0) == Some(0)
    ensures FirstPart(sep, s) == FirstPart(sep, body)
  {
    TwoFirst(s, sep, d);
    TwoFirst(body, sep, 0);
    SecondShifted(s, sep, d, body, |sep|);
  }

  lemma SamePayload(sep: Text, s: Text, s': Text)
    requires sep != [] && FirstPart(sep, s) == FirstPart(sep, s')
    ensures PayloadOfFirst(sep, s) == PayloadOfFirst(sep, s')
  {
  }

  /** A preamble makes no difference. */
  lemma PreambleIgnored(pre: Text, sep: Text, body: Text)
    requires sep != [] && OneLine(sep) && Preamble(pre, sep) && MatchAt(body, sep, 0)
    ensures PayloadOfFirst(sep, pre + body) == PayloadOfFirst(sep, body)
  {
    FirstAfterPreamble(pre, sep, body);
    FirstIs(body, sep, 0, 0);
    assert (pre + body)[|pre|..] == body;
    SamePart(pre + body, sep, |pre|, body);
    SamePayload(sep, pre + body, body);
  }

  /** The file comes back exactly when the delimiter occurs in neither the headers nor the file, with a preamble
      before the first delimiter or without. */
  lemma RoundTripExactlyWhen(
    contentType: Text, boundary: Text, pre: Text, headers: Text, payload: Text, tail: Text)
    requires Boundary(contentType) == Some(boundary) && OneLine(boundary) && Clean(headers)
    requires Preamble(pre, DASHES + boundary)
    ensures var sep := DASHES + boundary;
            Extract(contentType, pre + Body(sep, headers, payload, tail)) == Some(payload)
            <==> FindFrom(headers, sep, 0) == None && FindFrom(payload, sep, 0) == None
  {
    var sep := DASHES + boundary;
    Layout(sep, headers, payload, tail);
    PreambleIgnored(pre, sep, Body(sep, headers, payload, tail));
    if FindFrom(headers, sep, 0).Some? {
      ExtractedIfInHeaders(sep, headers, payload, tail, FindFrom(headers, sep, 0).value);
    } else if FindFrom(payload, sep, 0).Some? {
      var f := FindFrom(payload, sep, 0).value;
      ExtractedIfInPayload(sep, headers, payload, tail, f);
      assert |StripCrLf(payload[..f])| < |payload|;
    } else {
      ExtractedIfInNeither(sep, headers, payload, tail);
    }
  }

  /** The words of the format, as characters. */
  lemma Words()
    ensures KEY == Ascii("boundary=") && DASHES == Ascii("--") && [QUOTE] == Ascii("\"")
    ensures CRLF == Ascii("\r\n") && BLANK_LINE == Ascii("\r\n\r\n")
  {
  }

  lemma NoKeyWithout(s: Text)
    requires 61 !in s
    ensures FindFrom(s, KEY, 0) == None
  {
    FindsFirst(s, KEY, 0);
    if FindFrom(s, KEY, 0).Some? {
      MatchChar(s, KEY, FindFrom(s, KEY, 0).value, 8);
    }
  }

  lemma TypeNames(b: Text, quoted: bool)
    requires Bare(b) && FindFrom(if quoted then Ascii("\"") + b + Ascii("\"") else b, KEY, 0) == None
    ensures Boundary(Ascii("multipart/form-data; boundary=")
                     + if quoted then Ascii("\"") + b + Ascii("\"") else b) == Some(b)
  {
    var prefix := Ascii("multipart/form-data; ");
    Words();
    NoKeyWithout(prefix);
    assert Ascii("multipart/form-data; boundary=") == prefix + KEY;
    BoundaryFound(prefix, b, quoted);
  }

  /** The round trip of a request written out: content type and body as text. */
  lemma RoundTripAsText(b: Text, quoted: bool, headers: Text, payload: Text, tail: Text)
    requires Bare(b) && OneLine(b) && Clean(headers)
    requires FindFrom(if quoted then Ascii("\"") + b + Ascii("\"") else b, Ascii("boundary="), 0) == None
    ensures var contentType := Ascii("multipart/form-data; boundary=")
                               + if quoted then Ascii("\"") + b + Ascii("\"") else b;
            var sep := Ascii("--") + b;
            var body := sep + Ascii("\r\n") + headers + Ascii("\r\n\r\n") + payload + Ascii("\r\n") + sep + tail;
            Extract(contentType, body) == Some(payload)
            <==> FindFrom(headers, sep, 0) == None && FindFrom(payload, sep, 0) == None
  {
    var contentType := Ascii("multipart/form-data; boundary=")
                       + if quoted then Ascii("\"") + b + Ascii("\"") else b;
    Words();
    TypeNames(b, quoted);
    BodyIs(DASHES + b, headers, payload, tail);
    assert [] + Body(DASHES + b, headers, payload, tail) == Body(DASHES + b, headers, payload, tail);
    RoundTripExactlyWhen(contentType, b, [], headers, payload, tail);
  }

  // ---- The loops ----

  method FindSubseq(hay: Text, needle: Text) returns (r: Option<nat>)
    ensures r == if needle == [] then None else FindFrom(hay, needle, 0)
  {
    if needle == [] || |hay| < |needle| {
      return None;
    }
    for i := 0 to |hay| - |needle| + 1
      invariant FindFrom(hay, needle, 0) == FindFrom(hay, needle, i)
    {
      AgreesIsMatch(hay, needle, i);
      if hay[i..i + |needle|] == needle {
        return Some(i);
      }
    }
    return None;
  }

  /** The places of all delimiters. */
  method Delimiters(body: Text, sep: Text) returns (parts: seq<nat>)
    requires sep != []
    ensures parts == Matches(body, sep, 0)
  {
    parts := [];
    var i := 0;
    assert body[0..] == body;
    var found := FindSubseq(body[i..], sep);
    FoundFrom(body, sep, i, found);
    ghost var rest := Matches(body, sep, 0);
    ghost var all := rest;
    while found.Some?
      invariant 0 <= i <= |body|
      invariant rest == Matches(body, sep, i) && parts + rest == all
      invariant found.None? ==> FindFrom(body, sep, i) == None
      invariant found.Some? ==> FindFrom(body, sep, i) == Some(i + found.value)
      decreases |body| - i
    {
      var at := i + found.value;
      MatchesStep(body, sep, i, at);
      ghost var more := Matches(body, sep, at + |sep|);
      assert parts + ([at] + more) == (parts + [at]) + more;
      rest := more;
      parts := parts + [at];
      i := at + |sep|;
      found := FindSubseq(body[i..], sep);
      FoundFrom(body, sep, i, found);
    }
    NoMatches(body, sep, i);
  }

  lemma FoundFrom(body: Text, sep: Text, i: nat, found: Option<nat>)
    requires i <= |body| && found == FindFrom(body[i..], sep, 0)
    ensures found.None? ==> FindFrom(body, sep, i) == None
    ensures found.Some? ==> FindFrom(body, sep, i) == Some(i + found.value)
  {
    FindInSuffix(body, sep, i, 0);
  }

  method ExtractFirstFile(contentType: Text, body: Text) returns (r: Option<Text>)
    ensures r == Extract(contentType, body)
  {
    var boundary := Boundary(contentType);
    if boundary.None? {
      return None;
    }
    var sep := DASHES + boundary.value;
    var parts := Delimiters(body, sep);
    if |parts| < 2 {
      return None;
    }
    TwoMatches(body, sep);
    var part := body[parts[0] + |sep|..parts[1]];
    PayloadOfPart(sep, body, part);
    r := ReadPayload(part);
  }

  /** The payload of a part, after its headers and without the newline that belongs to the delimiter. */
  method ReadPayload(part: Text) returns (r: Option<Text>)
    ensures r == Payload(part)
  {
    var s := if CRLF <= part then 2 else 0;
    var rest := part[s..];
    var hdrEnd := FindSubseq(rest, BLANK_LINE);
    if hdrEnd.None? {
      return None;
    }
    var bodyPart := part[s + hdrEnd.value + 4..];
    assert bodyPart == rest[hdrEnd.value + 4..];
    return Some(StripCrLf(bodyPart));
  }
}
