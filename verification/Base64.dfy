/** The base64 encoder of e2b-shim, and a decoder written after section 4 of RFC 4648. */
module Base64 {
  import opened Prelude

  const TABLE: string := "ABCDEFGHIJKLMNOPQRSTUVWXYZ" + "abcdefghijklmnopqrstuvwxyz" + "0123456789" + "+/"

  // ---- Section 4 of RFC 4648 ----

  /** The value of a symbol, from table 1 of the RFC. */
  function Value(c: char): Option<nat> {
    var k := c as nat;
    if 65 <= k <= 90 then Some(k - 65)
    else if 97 <= k <= 122 then Some(k - 97 + 26)
    else if 48 <= k <= 57 then Some(k - 48 + 52)
    else if c == '+' then Some(62)
    else if c == '/' then Some(63)
    else None
  }

  function Symbol(v: nat): char
    requires v < 64
  {
    if v < 26 then (v + 65) as char
    else if v < 52 then (v - 26 + 97) as char
    else if v < 62 then (v - 52 + 48) as char
    else if v == 62 then '+'
    else '/'
  }

  lemma SymbolValue(v: nat)
    requires v < 64
    ensures Value(Symbol(v)) == Some(v) && Symbol(v) != '='
  {
  }

  /** The encoder's table is the RFC's. */
  lemma TableIsStandard(v: nat)
    requires v < 64
    ensures |TABLE| == 64 && TABLE[v] == Symbol(v)
  {
  }

  /** The bytes that four six-bit values make. */
  function Byte0(v0: nat, v1: nat): byte {
    (v0 * 4 + v1 / 16) % 256
  }

  function Byte1(v1: nat, v2: nat): byte {
    (v1 % 16 * 16 + v2 / 4) % 256
  }

  function Byte2(v2: nat, v3: nat): byte {
    (v2 % 4 * 64 + v3) % 256
  }

  /** Decoding in groups of four symbols; padding may stand only in the last group, over bits that are zero. */
  function Decode(s: string): Option<seq<byte>> {
    if s == [] then Some([])
    else if |s| < 4 then None
    else
      match (Value(s[0]), Value(s[1]))
      case (Some(v0), Some(v1)) =>
        if s[2] == '=' then
          if |s| == 4 && s[3] == '=' && v1 % 16 == 0 then Some([Byte0(v0, v1)]) else None
        else (
          match Value(s[2])
          case None => None
          case Some(v2) =>
            if s[3] == '=' then
              if |s| == 4 && v2 % 4 == 0 then Some([Byte0(v0, v1), Byte1(v1, v2)]) else None
            else
              match (Value(s[3]), Decode(s[4..]))
              case (Some(v3), Some(rest)) => Some([Byte0(v0, v1), Byte1(v1, v2), Byte2(v2, v3)] + rest)
              case _ => None
        )
      case _ => None
  }

  lemma DecodeFull(s: string, v0: nat, v1: nat, v2: nat, v3: nat, rest: seq<byte>)
    requires |s| >= 4 && Value(s[0]) == Some(v0) && Value(s[1]) == Some(v1)
    requires Value(s[2]) == Some(v2) && Value(s[3]) == Some(v3) && s[2] != '=' && s[3] != '='
    requires Decode(s[4..]) == Some(rest)
    ensures Decode(s) == Some([Byte0(v0, v1), Byte1(v1, v2), Byte2(v2, v3)] + rest)
  {
  }

  lemma DecodePaddedOnce(s: string, v0: nat, v1: nat, v2: nat)
    requires |s| == 4 && Value(s[0]) == Some(v0) && Value(s[1]) == Some(v1) && Value(s[2]) == Some(v2)
    requires s[2] != '=' && s[3] == '=' && v2 % 4 == 0
    ensures Decode(s) == Some([Byte0(v0, v1), Byte1(v1, v2)])
  {
  }

  lemma DecodePadded(s: string, v0: nat, v1: nat)
    requires |s| == 4 && Value(s[0]) == Some(v0) && Value(s[1]) == Some(v1) && s[2] == '=' && s[3] == '='
    requires v1 % 16 == 0
    ensures Decode(s) == Some([Byte0(v0, v1)])
  {
  }

  // ---- The encoder ----

  /** Three bytes as one 24-bit number. */
  function Word(x: byte, y: byte, z: byte): nat {
    x as nat * 65536 + y as nat * 256 + z as nat
  }

  /** Six bits of it, the most significant first. Shifting right by six bits is division by 64. */
  function Sextet(n: nat, k: nat): (v: nat)
    ensures v < 64
  {
    match k
    case 0 => n / 262144 % 64
    case 1 => n / 4096 % 64
    case 2 => n / 64 % 64
    case _ => n % 64
  }

  function Sym(n: nat, k: nat): char {
    Symbol(Sextet(n, k))
  }

  function Encode(b: seq<byte>): string {
    if b == [] then []
    else if |b| == 1 then
      var n := Word(b[0], 0, 0);
      [Sym(n, 0), Sym(n, 1), '=', '=']
    else if |b| == 2 then
      var n := Word(b[0], b[1], 0);
      [Sym(n, 0), Sym(n, 1), Sym(n, 2), '=']
    else
      var n := Word(b[0], b[1], b[2]);
      [Sym(n, 0), Sym(n, 1), Sym(n, 2), Sym(n, 3)] + Encode(b[3..])
  }

  lemma Sextet0(x: byte, y: byte, z: byte)
    ensures Sextet(Word(x, y, z), 0) == x / 4
  {
    Divide(262144, x / 4, x % 4 * 65536 + y * 256 + z);
  }

  lemma Sextet1(x: byte, y: byte, z: byte)
    ensures Sextet(Word(x, y, z), 1) == x % 4 * 16 + y / 16
  {
    var v := x % 4 * 16 + y / 16;
    Divide(4096, x / 4 * 64 + v, y % 16 * 256 + z);
    Divide(64, x / 4, v);
  }

  lemma Sextet2(x: byte, y: byte, z: byte)
    ensures Sextet(Word(x, y, z), 2) == y % 16 * 4 + z / 64
  {
    var v := y % 16 * 4 + z / 64;
    Divide(64, (x * 16 + y / 16) * 64 + v, z % 64);
    Divide(64, x * 16 + y / 16, v);
  }

  lemma Sextet3(x: byte, y: byte, z: byte)
    ensures Sextet(Word(x, y, z), 3) == z % 64
  {
    Divide(64, x * 1024 + y * 4 + z / 64, z % 64);
  }

  lemma Byte0Back(x: byte, r: nat)
    requires r < 16
    ensures Byte0(x / 4, x % 4 * 16 + r) == x
  {
    assert (x % 4 * 16 + r) / 16 == x % 4;
  }

  lemma Byte1Back(q: nat, y: byte, r: nat)
    requires r < 4
    ensures Byte1(q * 16 + y / 16, y % 16 * 4 + r) == y
  {
    assert (q * 16 + y / 16) % 16 == y / 16;
    assert (y % 16 * 4 + r) / 4 == y % 16;
  }

  lemma Byte2Back(q: nat, z: byte)
    ensures Byte2(q * 4 + z / 64, z % 64) == z
  {
    assert (q * 4 + z / 64) % 4 == z / 64;
  }

  lemma BytesOfSextets(x: byte, y: byte, z: byte)
    ensures var v0, v1, v2, v3 := x / 4, x % 4 * 16 + y / 16, y % 16 * 4 + z / 64, z % 64;
            Byte0(v0, v1) == x && Byte1(v1, v2) == y && Byte2(v2, v3) == z
  {
    Byte0Back(x, y / 16);
    Byte1Back(x % 4, y, z / 64);
    Byte2Back(y % 16, z);
  }

  /** The symbols of a group, and the bytes the RFC makes of their values. */
  lemma SymbolsOfWord(x: byte, y: byte, z: byte)
    ensures var n := Word(x, y, z);
            var v0, v1, v2, v3 := x / 4, x % 4 * 16 + y / 16, y % 16 * 4 + z / 64, z % 64;
            && Value(Sym(n, 0)) == Some(v0) && Value(Sym(n, 1)) == Some(v1)
            && Value(Sym(n, 2)) == Some(v2) && Value(Sym(n, 3)) == Some(v3)
            && Sym(n, 2) != '=' && Sym(n, 3) != '='
  {
    var n := Word(x, y, z);
    Sextet0(x, y, z);
    Sextet1(x, y, z);
    Sextet2(x, y, z);
    Sextet3(x, y, z);
    SymbolValue(Sextet(n, 0));
    SymbolValue(Sextet(n, 1));
    SymbolValue(Sextet(n, 2));
    SymbolValue(Sextet(n, 3));
  }

  lemma DecodeGroup(x: byte, y: byte, z: byte, tail: string, rest: seq<byte>)
    requires Decode(tail) == Some(rest)
    ensures var n := Word(x, y, z);
            Decode([Sym(n, 0), Sym(n, 1), Sym(n, 2), Sym(n, 3)] + tail) == Some([x, y, z] + rest)
  {
    SymbolsOfWord(x, y, z);
    BytesOfSextets(x, y, z);
    var n := Word(x, y, z);
    var s := [Sym(n, 0), Sym(n, 1), Sym(n, 2), Sym(n, 3)] + tail;
    assert s[4..] == tail;
    DecodeFull(s, x / 4, x % 4 * 16 + y / 16, y % 16 * 4 + z / 64, z % 64, rest);
  }

  lemma TwoBytes(x: byte, y: byte, v1: nat, v2: nat)
    requires v1 == x % 4 * 16 + y / 16 && v2 == y % 16 * 4
    ensures v2 % 4 == 0 && Byte0(x / 4, v1) == x && Byte1(v1, v2) == y
  {
    Byte0Back(x, y / 16);
    Byte1Back(x % 4, y, 0);
    Divide(4, y % 16, 0);
  }

  lemma DecodeTwo(x: byte, y: byte, s: string, v1: nat, v2: nat)
    requires |s| == 4 && s[2] != '=' && s[3] == '=' && v1 == x % 4 * 16 + y / 16 && v2 == y % 16 * 4
    requires Value(s[0]) == Some(x / 4) && Value(s[1]) == Some(v1) && Value(s[2]) == Some(v2)
    ensures Decode(s) == Some([x, y])
  {
    TwoBytes(x, y, v1, v2);
    DecodePaddedOnce(s, x / 4, v1, v2);
  }

  lemma DecodeOne(x: byte, s: string, v1: nat)
    requires |s| == 4 && s[2] == '=' && s[3] == '=' && v1 == x % 4 * 16
    requires Value(s[0]) == Some(x / 4) && Value(s[1]) == Some(v1)
    ensures Decode(s) == Some([x])
  {
    Byte0Back(x, 0);
    SixteenDivides(x % 4, v1);
    DecodePadded(s, x / 4, v1);
  }

  lemma SixteenDivides(k: nat, v: nat)
    requires v == k * 16
    ensures v % 16 == 0
  {
  }

  /** Decoding gives back every byte string. */
  lemma {:induction false} DecodeEncode(b: seq<byte>)
    ensures Decode(Encode(b)) == Some(b)
  {
    if |b| >= 3 {
      DecodeEncode(b[3..]);
      DecodeGroup(b[0], b[1], b[2], Encode(b[3..]), b[3..]);
      assert b == [b[0], b[1], b[2]] + b[3..];
    } else if |b| == 2 {
      DecodeEncodeTwo(b);
    } else if |b| == 1 {
      DecodeEncodeOne(b);
    }
  }

  lemma DecodeEncodeTwo(b: seq<byte>)
    requires |b| == 2
    ensures Decode(Encode(b)) == Some(b)
  {
    SymbolsOfWord(b[0], b[1], 0);
    DecodeTwo(b[0], b[1], Encode(b), b[0] % 4 * 16 + b[1] / 16, b[1] % 16 * 4);
    assert b == [b[0], b[1]];
  }

  lemma DecodeEncodeOne(b: seq<byte>)
    requires |b| == 1
    ensures Decode(Encode(b)) == Some(b)
  {
    SymbolsOfWord(b[0], 0, 0);
    DecodeOne(b[0], Encode(b), b[0] % 4 * 16);
    assert b == [b[0]];
  }

  /** Every three bytes, or the one or two that are left, take four characters. */
  lemma {:induction false} EncodedLength(b: seq<byte>)
    ensures |Encode(b)| == GroupsOf(|b|) * 4
  {
    GroupLength(b);
    OneMoreGroup(|b|);
    if |b| >= 3 {
      EncodedLength(b[3..]);
    }
  }

  /** The groups of three in `n` bytes, the last of which may be short: `n` by 3, rounded up. */
  function GroupsOf(n: nat): nat {
    (n + 2) / 3
  }

  lemma GroupLength(b: seq<byte>)
    ensures |b| >= 3 ==> |Encode(b)| == 4 + |Encode(b[3..])|
    ensures 0 < |b| < 3 ==> |Encode(b)| == 4
    ensures |b| == 0 ==> |Encode(b)| == 0
  {
  }

  lemma OneMoreGroup(n: nat)
    ensures n >= 3 ==> GroupsOf(n) == GroupsOf(n - 3) + 1
    ensures n < 3 ==> GroupsOf(n) == if n == 0 then 0 else 1
  {
  }

  method Push(out: string, n: nat, k: nat) returns (r: string)
    ensures r == out + [Sym(n, k)]
  {
    TableIsStandard(Sextet(n, k));
    r := out + [TABLE[Sextet(n, k)]];
  }

  /** The loop, and the one or two bytes left after it. The bytes of a word do not overlap, so that or is plus. */
  method GeneralB64(b: seq<byte>) returns (out: string)
    ensures out == Encode(b)
  {
    out := [];
    var i := 0;
    assert b[0..] == b;
    while i + 3 <= |b|
      invariant 0 <= i <= |b|
      invariant out + Encode(b[i..]) == Encode(b)
    {
      var n := Word(b[i], b[i + 1], b[i + 2]);
      EncodeStep(out, b, i);
      out := Push(out, n, 0);
      out := Push(out, n, 1);
      out := Push(out, n, 2);
      out := Push(out, n, 3);
      i := i + 3;
    }
    if i < |b| {
      out := Last(out, b[i..]);
    }
  }

  method Last(before: string, b: seq<byte>) returns (out: string)
    requires |b| == 1 || |b| == 2
    ensures out == before + Encode(b)
  {
    out := before;
    var n := Word(b[0], if |b| == 2 then b[1] else 0, 0);
    out := Push(out, n, 0);
    out := Push(out, n, 1);
    if |b| == 2 {
      out := Push(out, n, 2);
    } else {
      out := out + ['='];
    }
    out := out + ['='];
  }

  lemma EncodeStep(out: string, b: seq<byte>, i: nat)
    requires i + 3 <= |b|
    ensures var n := Word(b[i], b[i + 1], b[i + 2]);
            out + Encode(b[i..]) == out + [Sym(n, 0)] + [Sym(n, 1)] + [Sym(n, 2)] + [Sym(n, 3)] + Encode(b[i + 3..])
  {
    assert b[i..][3..] == b[i + 3..];
  }
}
