/** Percent-encoding as e2b-shim does it, on the bytes of strings in UTF-8. */
module PercentCoding {
  import opened Prelude

  const PERCENT: byte := 37

  /** Section 2.3 of RFC 3986. */
  predicate Unreserved(b: byte) {
    97 <= b <= 122 || 65 <= b <= 90 || 48 <= b <= 57 || b == 45 || b == 46 || b == 95 || b == 126
  }

  /** The upper-case hexadecimal digit. */
  function HexDigit(v: nat): byte
    requires v < 16
  {
    if v < 10 then 48 + v else 55 + v
  }

  function Encode(s: seq<byte>): seq<byte> {
    if s == [] then []
    else if Unreserved(s[0]) then [s[0]] + Encode(s[1..])
    else [PERCENT, HexDigit(s[0] / 16), HexDigit(s[0] % 16)] + Encode(s[1..])
  }

  // ---- Decoding ----

  /** The value of a digit in either case. */
  function DigitValue(c: byte): (r: Option<nat>)
    ensures r.Some? ==> r.value < 16
  {
    if 48 <= c <= 57 then Some((c - 48) as nat)
    else if 65 <= c <= 70 then Some((c - 55) as nat)
    else if 97 <= c <= 102 then Some((c - 87) as nat)
    else None
  }

  /** Parsing two characters as a number in base 16. The standard parser allows a plus sign before the digits. */
  function HexPair(a: byte, b: byte): (r: Option<byte>) {
    if a == 43 then
      match DigitValue(b)
      case None => None
      case Some(v) => Some(v)
    else
      match (DigitValue(a), DigitValue(b))
      case (Some(u), Some(v)) => Some(u * 16 + v)
      case _ => None
  }

  /** The decoded bytes. A percent sign with fewer than two characters after it stands for itself. */
  function DecodeBytes(s: seq<byte>): Option<seq<byte>> {
    if s == [] then Some([])
    else if s[0] == PERCENT && |s| > 2 then
      match HexPair(s[1], s[2])
      case None => None
      case Some(v) =>
        match DecodeBytes(s[3..])
        case None => None
        case Some(rest) => Some([v] + rest)
    else
      match DecodeBytes(s[1..])
      case None => None
      case Some(rest) => Some([s[0]] + rest)
  }

  function Decode(s: seq<byte>): Option<seq<byte>> {
    match DecodeBytes(s)
    case Some(out) => if ValidUtf8(out) then Some(out) else None
    case None => None
  }

  // ---- Well-formed UTF-8, section 4 of RFC 3629 ----

  predicate Tail(b: byte) {
    0x80 <= b <= 0xBF
  }

  /** The length of the character that starts `s`, or 0 if no well-formed one does. */
  function CharLength(s: seq<byte>): (n: nat)
    requires s != []
    ensures n <= |s|
  {
    if s[0] <= 0x7F then 1
    else if |s| >= 2 && 0xC2 <= s[0] <= 0xDF && Tail(s[1]) then 2
    else if |s| >= 3 && Lead3(s[0], s[1]) && Tail(s[2]) then 3
    else if |s| >= 4 && Lead4(s[0], s[1]) && Tail(s[2]) && Tail(s[3]) then 4
    else 0
  }

  predicate Lead3(a: byte, b: byte) {
    (a == 0xE0 && 0xA0 <= b <= 0xBF) || (a == 0xED && 0x80 <= b <= 0x9F)
    || ((0xE1 <= a <= 0xEC || 0xEE <= a <= 0xEF) && Tail(b))
  }

  predicate Lead4(a: byte, b: byte) {
    (a == 0xF0 && 0x90 <= b <= 0xBF) || (a == 0xF4 && 0x80 <= b <= 0x8F) || (0xF1 <= a <= 0xF3 && Tail(b))
  }

  predicate ValidUtf8(s: seq<byte>) {
    s == [] || (CharLength(s) > 0 && ValidUtf8(s[CharLength(s)..]))
  }

  /** A Unicode scalar value. */
  type Scalar = c: nat | c < 0xD800 || 0xE000 <= c <= 0x10FFFF

  /** Its bytes, section 3 of RFC 3629. */
  function Utf8Char(c: Scalar): (s: seq<byte>)
    ensures 1 <= |s| <= 4
  {
    if c < 0x80 then [c]
    else if c < 0x800 then [0xC0 + c / 64, 0x80 + c % 64]
    else if c < 0x1_0000 then [0xE0 + c / 4096, 0x80 + c / 64 % 64, 0x80 + c % 64]
    else [0xF0 + c / 0x4_0000, 0x80 + c / 4096 % 64, 0x80 + c / 64 % 64, 0x80 + c % 64]
  }

  function Utf8(cs: seq<Scalar>): seq<byte> {
    if cs == [] then [] else Utf8Char(cs[0]) + Utf8(cs[1..])
  }

  lemma LengthFromHead(s: seq<byte>, more: seq<byte>)
    requires s != [] && CharLength(s) == |s|
    ensures CharLength(s + more) == |s|
  {
    assert forall i | 0 <= i < |s| :: (s + more)[i] == s[i];
  }

  lemma CharLengthOf(c: Scalar, rest: seq<byte>)
    ensures CharLength(Utf8Char(c) + rest) == |Utf8Char(c)|
  {
    WholeChar(c);
    LengthFromHead(Utf8Char(c), rest);
  }

  lemma WholeChar(c: Scalar)
    ensures CharLength(Utf8Char(c)) == |Utf8Char(c)|
  {
    if 0x800 <= c < 0x1_0000 {
      assert c / 4096 == c / 64 / 64;
    }
  }

  lemma CharOf(s: seq<byte>) returns (c: Scalar)
    requires s != [] && CharLength(s) > 0
    ensures Utf8Char(c) == s[..CharLength(s)]
  {
    var n := CharLength(s);
    if n == 1 {
      c := s[0];
    } else if n == 2 {
      c := TwoBytes(s[0], s[1]);
    } else if n == 3 {
      c := ThreeBytes(s[0], s[1], s[2]);
    } else {
      c := FourBytes(s[0], s[1], s[2], s[3]);
    }
  }

  lemma TwoBytes(a: byte, b: byte) returns (c: Scalar)
    requires 0xC2 <= a <= 0xDF && Tail(b)
    ensures Utf8Char(c) == [a, b]
  {
    Divide(64, a - 0xC0, b - 0x80);
    c := (a - 0xC0) * 64 + (b - 0x80);
  }

  lemma ThreeBytes(a: byte, b: byte, d: byte) returns (c: Scalar)
    requires Lead3(a, b) && Tail(d)
    ensures Utf8Char(c) == [a, b, d]
  {
    var high: nat := (a - 0xE0) * 64 + (b - 0x80);
    Divide(64, a - 0xE0, b - 0x80);
    Divide(64, high, d - 0x80);
    c := high * 64 + (d - 0x80);
    assert c / 4096 == c / 64 / 64;
  }

  lemma FourBytes(a: byte, b: byte, d: byte, e: byte) returns (c: Scalar)
    requires Lead4(a, b) && Tail(d) && Tail(e)
    ensures Utf8Char(c) == [a, b, d, e]
  {
    var top: nat := (a - 0xF0) * 64 + (b - 0x80);
    var high: nat := top * 64 + (d - 0x80);
    Divide(64, a - 0xF0, b - 0x80);
    Divide(64, top, d - 0x80);
    Divide(64, high, e - 0x80);
    c := high * 64 + (e - 0x80);
    assert c / 4096 == c / 64 / 64 && c / 0x4_0000 == c / 64 / 64 / 64;
  }

  lemma {:induction false} ScalarsAreValid(cs: seq<Scalar>)
    ensures ValidUtf8(Utf8(cs))
  {
    if cs != [] {
      var rest := Utf8(cs[1..]);
      ScalarsAreValid(cs[1..]);
      CharLengthOf(cs[0], rest);
      assert Utf8(cs)[|Utf8Char(cs[0])|..] == rest;
    }
  }

  lemma {:induction false} ValidAreScalars(s: seq<byte>) returns (cs: seq<Scalar>)
    requires ValidUtf8(s)
    ensures Utf8(cs) == s
    decreases |s|
  {
    if s == [] {
      cs := [];
    } else {
      var n := CharLength(s);
      var c := CharOf(s);
      var more := ValidAreScalars(s[n..]);
      cs := [c] + more;
      assert cs[1..] == more && s == s[..n] + s[n..];
    }
  }

  /** Well-formed is exactly what encodes some sequence of scalar values. */
  lemma Utf8Exactly(s: seq<byte>)
    ensures ValidUtf8(s) <==> exists cs :: Utf8(cs) == s
  {
    if ValidUtf8(s) {
      var cs := ValidAreScalars(s);
    }
    if cs :| Utf8(cs) == s {
      ScalarsAreValid(cs);
    }
  }

  // ---- The round trip ----

  lemma HexPairOfDigits(b: byte)
    ensures HexPair(HexDigit(b / 16), HexDigit(b % 16)) == Some(b)
  {
    assert DigitValue(HexDigit(b / 16)) == Some(b / 16 as nat);
    assert DigitValue(HexDigit(b % 16)) == Some(b % 16 as nat);
    assert b / 16 * 16 + b % 16 == b;
  }

  lemma {:induction false} DecodeBytesEncode(s: seq<byte>)
    ensures DecodeBytes(Encode(s)) == Some(s)
  {
    if s != [] {
      DecodeBytesEncode(s[1..]);
      var rest := Encode(s[1..]);
      assert s == [s[0]] + s[1..];
      if Unreserved(s[0]) {
        DecodePlain(s[0], rest);
      } else {
        HexPairOfDigits(s[0]);
        DecodeEscape(HexDigit(s[0] / 16), HexDigit(s[0] % 16), rest);
      }
    }
  }

  lemma DecodePlain(b: byte, rest: seq<byte>)
    requires b != PERCENT
    ensures DecodeBytes([b] + rest) == match DecodeBytes(rest) { case None => None case Some(out) => Some([b] + out) }
  {
    assert ([b] + rest)[1..] == rest;
  }

  lemma DecodeEscape(h: byte, l: byte, rest: seq<byte>)
    requires HexPair(h, l).Some? && DecodeBytes(rest).Some?
    ensures DecodeBytes([PERCENT, h, l] + rest) == Some([HexPair(h, l).value] + DecodeBytes(rest).value)
  {
    assert ([PERCENT, h, l] + rest)[3..] == rest;
  }

  /** Decoding the encoding gives back exactly the strings, that is, the byte sequences in UTF-8. */
  lemma DecodeEncode(s: seq<byte>)
    ensures Decode(Encode(s)) == if ValidUtf8(s) then Some(s) else None
  {
    DecodeBytesEncode(s);
  }

  /** Section 2.1 of RFC 3986: an unreserved character, or a percent sign and two upper-case digits. */
  ghost predicate Canonical(t: seq<byte>) {
    t == []
    || (Unreserved(t[0]) && Canonical(t[1..]))
    || (|t| > 2 && t[0] == PERCENT && UpperHex(t[1]) && UpperHex(t[2])
        && HexPair(t[1], t[2]).Some? && !Unreserved(HexPair(t[1], t[2]).value) && Canonical(t[3..]))
  }

  predicate UpperHex(c: byte) {
    48 <= c <= 57 || 65 <= c <= 70
  }

  lemma {:induction false} EncodeIsCanonical(s: seq<byte>)
    ensures Canonical(Encode(s))
  {
    if s != [] {
      EncodeIsCanonical(s[1..]);
      HexPairOfDigits(s[0]);
      var t := Encode(s);
      if Unreserved(s[0]) {
        assert t[1..] == Encode(s[1..]);
      } else {
        assert t[3..] == Encode(s[1..]);
      }
    }
  }

  lemma DigitBack(c: byte)
    requires UpperHex(c)
    ensures DigitValue(c).Some? && DigitValue(c).value < 16 && HexDigit(DigitValue(c).value) == c
  {
  }

  lemma DigitsOfHexPair(h: byte, l: byte)
    requires UpperHex(h) && UpperHex(l)
    ensures HexPair(h, l).Some?
    ensures var v := HexPair(h, l).value; HexDigit(v / 16) == h && HexDigit(v % 16) == l
  {
    DigitBack(h);
    DigitBack(l);
    var u, w := DigitValue(h).value, DigitValue(l).value;
    Divide(16, u, w);
    assert HexPair(h, l) == Some(u * 16 + w);
  }

  /** The canonical texts are exactly the encodings: each decodes to bytes that encode to it. */
  lemma {:induction false} CanonicalIsEncoded(t: seq<byte>)
    requires Canonical(t)
    ensures DecodeBytes(t).Some? && Encode(DecodeBytes(t).value) == t
  {
    if t != [] {
      if Unreserved(t[0]) {
        CanonicalIsEncoded(t[1..]);
        var out := DecodeBytes(t[1..]).value;
        assert t == [t[0]] + t[1..];
        DecodePlain(t[0], t[1..]);
        assert ([t[0]] + out)[1..] == out;
      } else {
        CanonicalIsEncoded(t[3..]);
        var out, v := DecodeBytes(t[3..]).value, HexPair(t[1], t[2]).value;
        assert t == [PERCENT, t[1], t[2]] + t[3..];
        DecodeEscape(t[1], t[2], t[3..]);
        DigitsOfHexPair(t[1], t[2]);
        assert ([v] + out)[1..] == out;
      }
    }
  }

  // ---- Character by character ----

  /** The bytes that stand for themselves, as ranges of characters. */
  predicate Plain(b: byte) {
    || 'a' as int <= b <= 'z' as int || 'A' as int <= b <= 'Z' as int || '0' as int <= b <= '9' as int
    || b == '-' as int || b == '.' as int || b == '_' as int || b == '~' as int
  }

  /** Every byte is encoded on its own: letters, digits and four marks stand for themselves, and any other becomes a
      percent sign and its two digits. */
  lemma EncodesEachByte(b: byte, rest: seq<byte>)
    ensures var digits := "0123456789ABCDEF";
            Encode([b] + rest) ==
            (if Plain(b) then [b] else ['%' as int, digits[b / 16] as int, digits[b % 16] as int]) + Encode(rest)
  {
    assert ([b] + rest)[1..] == rest;
    UpperDigit(b / 16);
    UpperDigit(b % 16);
  }

  lemma UpperDigit(v: nat)
    requires v < 16
    ensures HexDigit(v) == "0123456789ABCDEF"[v] as int
  {
  }

  lemma EitherDigit(v: nat)
    requires v < 16
    ensures DigitValue("0123456789ABCDEF"[v] as int) == Some(v)
    ensures DigitValue("0123456789abcdef"[v] as int) == Some(v)
  {
  }

  /** An escape decodes to the number its digits make, in either case. */
  lemma DecodesEitherCase(u: nat, v: nat, lowerU: bool, lowerV: bool, rest: seq<byte>)
    requires u < 16 && v < 16
    ensures var h: byte := if lowerU then "0123456789abcdef"[u] as int else "0123456789ABCDEF"[u] as int;
            var l: byte := if lowerV then "0123456789abcdef"[v] as int else "0123456789ABCDEF"[v] as int;
            DecodeBytes(['%' as int, h, l] + rest) == match DecodeBytes(rest)
                                                      case None => None
                                                      case Some(out) => Some([16 * u + v] + out)
  {
    EitherDigit(u);
    EitherDigit(v);
    var h: byte := if lowerU then "0123456789abcdef"[u] as int else "0123456789ABCDEF"[u] as int;
    var l: byte := if lowerV then "0123456789abcdef"[v] as int else "0123456789ABCDEF"[v] as int;
    var t := [PERCENT, h, l] + rest;
    assert t[3..] == rest && HexPair(h, l) == Some(16 * u + v);
  }

  /** Any byte but a percent sign decodes to itself, a plus sign among them; and so does a percent sign with fewer
      than two characters after it. */
  lemma DecodesToItself(b: byte, rest: seq<byte>)
    requires b != '%' as int || |rest| < 2
    ensures DecodeBytes([b] + rest) == match DecodeBytes(rest)
                                       case None => None
                                       case Some(out) => Some([b] + out)
  {
    assert ([b] + rest)[1..] == rest;
  }

  // ---- What is accepted ----

  /** An escape that is examined: a percent sign with two characters after it. */
  predicate Escape(t: seq<byte>, i: nat) {
    i + 2 < |t| && t[i] == PERCENT
  }

  /** Scanning from the left, three characters at an escape and one elsewhere, comes to position `i`. */
  predicate Reached(t: seq<byte>, i: nat) {
    i == 0
    || (Reached(t, i - 1) && !Escape(t, i - 1))
    || (i >= 3 && Reached(t, i - 3) && Escape(t, i - 3))
  }

  predicate HexChar(c: byte) {
    48 <= c <= 57 || 65 <= c <= 70 || 97 <= c <= 102
  }

  /** Two hexadecimal digits, or a plus sign and one. */
  predicate Numeral(a: byte, b: byte) {
    HexChar(b) && (HexChar(a) || a == 43)
  }

  lemma NumeralIsParsed(a: byte, b: byte)
    ensures HexPair(a, b).Some? <==> Numeral(a, b)
  {
  }

  /** From `from` on, every escape the scan comes to is followed by a numeral. */
  ghost predicate WellEscaped(t: seq<byte>, from: nat) {
    forall i: nat | from <= i && Reached(t, i) && Escape(t, i) :: Numeral(t[i + 1], t[i + 2])
  }

  /** Between an escape and the position after it the scan does not stop. */
  lemma NotReachedInside(t: seq<byte>, i: nat)
    requires Reached(t, i) && Escape(t, i)
    requires Numeral(t[i + 1], t[i + 2])
    ensures WellEscaped(t, i) <==> WellEscaped(t, i + 3)
  {
    if WellEscaped(t, i + 3) {
      forall k: nat | i <= k && Reached(t, k) && Escape(t, k) ensures Numeral(t[k + 1], t[k + 2]) {
        assert k == i || t[i + 1] != PERCENT;
        assert k == i || t[i + 2] != PERCENT;
      }
    }
  }

  lemma NoEscapeHere(t: seq<byte>, i: nat)
    requires !Escape(t, i)
    ensures WellEscaped(t, i) <==> WellEscaped(t, i + 1)
  {
    if WellEscaped(t, i + 1) {
      forall k: nat | i <= k && Reached(t, k) && Escape(t, k) ensures Numeral(t[k + 1], t[k + 2]) {
        assert k != i;
      }
    }
  }

  lemma {:induction false} AcceptedFrom(t: seq<byte>, i: nat)
    requires i <= |t| && Reached(t, i)
    ensures DecodeBytes(t[i..]).Some? <==> WellEscaped(t, i)
    decreases |t| - i
  {
    if i < |t| {
      DecodeAt(t, i);
      if Escape(t, i) {
        NumeralIsParsed(t[i + 1], t[i + 2]);
        if Numeral(t[i + 1], t[i + 2]) {
          NotReachedInside(t, i);
          AcceptedFrom(t, i + 3);
        }
      } else {
        AcceptedFrom(t, i + 1);
        NoEscapeHere(t, i);
      }
    }
  }

  /** A text decodes exactly when every escape the scan from the left comes to is followed by two hexadecimal
      digits, or by a plus sign and one, and the bytes it stands for are UTF-8. */
  lemma AcceptedExactlyWhen(t: seq<byte>)
    ensures DecodeBytes(t).Some? <==> WellEscaped(t, 0)
    ensures Decode(t).Some? <==> WellEscaped(t, 0) && ValidUtf8(DecodeBytes(t).value)
  {
    assert t[0..] == t;
    AcceptedFrom(t, 0);
  }

  /** A plus sign before a digit, in either case, adds nothing. */
  lemma PlusDecodes(v: nat, lower: bool, rest: seq<byte>)
    requires v < 16
    ensures var d: byte := if lower then "0123456789abcdef"[v] as int else "0123456789ABCDEF"[v] as int;
            DecodeBytes(['%' as int, '+' as int, d] + rest) == match DecodeBytes(rest)
                                                               case None => None
                                                               case Some(out) => Some([v] + out)
  {
    EitherDigit(v);
    var d: byte := if lower then "0123456789abcdef"[v] as int else "0123456789ABCDEF"[v] as int;
    assert ([PERCENT, 43, d] + rest)[3..] == rest && HexPair(43, d) == Some(v);
  }

  /** "%+5" decodes to one byte, although a plus sign is no hexadecimal digit. */
  lemma PlusIsAccepted()
    ensures Decode([37, 43, 53]) == Some([5])
  {
    DecodeEscape(43, 53, []);
    var five: seq<byte> := [5];
    assert [PERCENT, 43, 53] + [] == [37, 43, 53] && five + [] == five;
    assert five[1..] == [] && ValidUtf8(five);
  }

  // ---- The loops ----

  method UrlEncode(s: seq<byte>) returns (out: seq<byte>)
    ensures out == Encode(s)
  {
    out := [];
    assert s[0..] == s;
    for k := 0 to |s|
      invariant out + Encode(s[k..]) == Encode(s)
    {
      var b := s[k];
      assert s[k..][1..] == s[k + 1..];
      if Unreserved(b) {
        out := out + [b];
      } else {
        out := out + [PERCENT, HexDigit(b / 16), HexDigit(b % 16)];
      }
    }
  }

  /** `out` decoded so far, `rest` still to come. */
  function Continue(out: seq<byte>, rest: Option<seq<byte>>): Option<seq<byte>> {
    match rest
    case None => None
    case Some(more) => Some(out + more)
  }

  lemma ContinueStart(rest: Option<seq<byte>>)
    ensures Continue([], rest) == rest
  {
    if rest.Some? {
      assert [] + rest.value == rest.value;
    }
  }

  lemma ContinueStep(out: seq<byte>, v: byte, rest: Option<seq<byte>>)
    ensures Continue(out + [v], rest) == Continue(out, Continue([v], rest))
  {
    if rest.Some? {
      assert out + [v] + rest.value == out + ([v] + rest.value);
    }
  }

  lemma DecodeAt(s: seq<byte>, i: nat)
    requires i < |s|
    ensures s[i] == PERCENT && i + 2 < |s| ==>
              DecodeBytes(s[i..]) == match HexPair(s[i + 1], s[i + 2])
                                     case None => None
                                     case Some(v) => Continue([v], DecodeBytes(s[i + 3..]))
    ensures !(s[i] == PERCENT && i + 2 < |s|) ==> DecodeBytes(s[i..]) == Continue([s[i]], DecodeBytes(s[i + 1..]))
  {
    assert s[i..][1..] == s[i + 1..];
    if i + 2 < |s| {
      assert s[i..][3..] == s[i + 3..];
    }
  }

  method UrlDecode(s: seq<byte>) returns (r: Option<seq<byte>>)
    ensures r == Decode(s)
  {
    var out: seq<byte> := [];
    var i := 0;
    assert s[0..] == s;
    ContinueStart(DecodeBytes(s));
    while i < |s|
      invariant 0 <= i <= |s|
      invariant DecodeBytes(s) == Continue(out, DecodeBytes(s[i..]))
    {
      DecodeAt(s, i);
      if s[i] == PERCENT && i + 2 < |s| {
        var v := HexPair(s[i + 1], s[i + 2]);
        if v.None? {
          return None;
        }
        ContinueStep(out, v.value, DecodeBytes(s[i + 3..]));
        out := out + [v.value];
        i := i + 3;
      } else {
        ContinueStep(out, s[i], DecodeBytes(s[i + 1..]));
        out := out + [s[i]];
        i := i + 1;
      }
    }
    assert out + [] == out;
    return if ValidUtf8(out) then Some(out) else None;
  }
}
