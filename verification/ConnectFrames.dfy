/** Envelopes of the Connect protocol as e2b-shim writes and reads them: a flag byte, the length in four bytes,
    most significant first, and the data. */
module ConnectFrames {
  import opened Prelude

  const WRAP: nat := 0x1_0000_0000

  function Power256(width: nat): (p: nat)
    ensures p > 0
  {
    if width == 0 then 1 else 256 * Power256(width - 1)
  }

  lemma FourBytes()
    ensures Power256(4) == WRAP
  {
    assert Power256(4) == 256 * Power256(3) && Power256(3) == 256 * Power256(2) && Power256(2) == 256 * Power256(1);
  }

  /** A number in `width` bytes, the most significant first. */
  function BigEndian(n: nat, width: nat): (b: seq<byte>)
    ensures |b| == width
  {
    if width == 0 then [] else BigEndian(n / 256, width - 1) + [n % 256]
  }

  function FromBigEndian(b: seq<byte>): nat {
    if b == [] then 0 else FromBigEndian(b[..|b| - 1]) * 256 + b[|b| - 1]
  }

  lemma {:induction false} BigEndianBack(n: nat, width: nat)
    requires n < Power256(width)
    ensures FromBigEndian(BigEndian(n, width)) == n
  {
    if width > 0 {
      BigEndianBack(n / 256, width - 1);
      assert BigEndian(n, width)[..width - 1] == BigEndian(n / 256, width - 1);
    }
  }

  lemma {:induction false} BigEndianOnto(b: seq<byte>)
    ensures FromBigEndian(b) < Power256(|b|) && BigEndian(FromBigEndian(b), |b|) == b
  {
    if b != [] {
      BigEndianOnto(b[..|b| - 1]);
      Divide(256, FromBigEndian(b[..|b| - 1]), b[|b| - 1]);
      assert b == b[..|b| - 1] + [b[|b| - 1]];
    }
  }

  /** A cast to 32 bits. */
  function Cast32(n: nat): (r: nat)
    ensures n < WRAP ==> r == n
    ensures r < WRAP && r <= n
  {
    n % WRAP
  }

  function Frame(flags: byte, length: nat, data: seq<byte>): seq<byte> {
    [flags] + BigEndian(length, 4) + data
  }

  /** The length is cast to 32 bits, so that it wraps around. */
  function Envelope(flags: byte, data: seq<byte>): seq<byte> {
    Frame(flags, Cast32(|data|), data)
  }

  predicate IsStream(contentType: string) {
    "application/connect+" <= contentType
  }

  /** The length that the bytes of a frame give. */
  function Length(body: seq<byte>): nat
    requires |body| >= 5
  {
    FromBigEndian(body[1..5])
  }

  function ExtractBody(contentType: string, body: seq<byte>): Option<seq<byte>> {
    if !IsStream(contentType) then Some(body)
    else if |body| < 5 || |body| < 5 + Length(body) then None
    else Some(body[5..5 + Length(body)])
  }

  lemma LengthOf(flags: byte, n: nat, rest: seq<byte>)
    requires n < WRAP
    ensures Length([flags] + BigEndian(n, 4) + rest) == n
  {
    FourBytes();
    BigEndianBack(n, 4);
    assert ([flags] + BigEndian(n, 4) + rest)[1..5] == BigEndian(n, 4);
  }

  lemma HeaderOf(body: seq<byte>)
    requires |body| >= 5
    ensures Length(body) < WRAP && [body[0]] + BigEndian(Length(body), 4) + body[5..] == body
  {
    FourBytes();
    BigEndianOnto(body[1..5]);
  }

  /** Out of an envelope and whatever follows it comes the data, cut to its length modulo 2^32. */
  lemma ExtractEnvelope(contentType: string, flags: byte, data: seq<byte>, tail: seq<byte>)
    requires IsStream(contentType)
    ensures ExtractBody(contentType, Envelope(flags, data) + tail) == Some(data[..Cast32(|data|)])
  {
    var n := Cast32(|data|);
    var body := Envelope(flags, data) + tail;
    assert body == [flags] + BigEndian(n, 4) + (data + tail);
    LengthOf(flags, n, data + tail);
    assert body[5..5 + n] == data[..n];
  }

  /** Four bytes by their place values. */
  function Places(a: nat, b: nat, c: nat, d: nat): nat {
    a * 0x100_0000 + b * 0x1_0000 + c * 0x100 + d
  }

  /** What an envelope looks like: the flags, the length modulo 2^32 by the place values of its four bytes, and the
      data. */
  lemma EnvelopeByPlace(flags: byte, data: seq<byte>)
    ensures var e := Envelope(flags, data);
            && |e| == 5 + |data| && e[0] == flags && e[5..] == data
            && Places(e[1], e[2], e[3], e[4]) == |data| % 0x1_0000_0000
  {
    var e := Envelope(flags, data);
    assert e == [flags] + BigEndian(Cast32(|data|), 4) + data;
    LengthOf(flags, Cast32(|data|), data);
    FourPlaces(e[1..5]);
  }

  lemma FourPlaces(b: seq<byte>)
    requires |b| == 4
    ensures FromBigEndian(b) == Places(b[0], b[1], b[2], b[3])
  {
    assert b[..3][..2] == b[..2] && b[..2][..1] == b[..1] && b[..1][..0] == [];
    assert FromBigEndian(b[..1]) == b[0];
    var b0: int, b1: int, b2: int := b[0], b[1], b[2];
    assert FromBigEndian(b[..2]) == b0 * 256 + b1;
    assert FromBigEndian(b[..3]) == (b0 * 256 + b1) * 256 + b2;
  }

  /** What is taken out of any body: of one that is not a stream, all of it; of a stream, as many bytes as the four
      length bytes say, or nothing if there are fewer. */
  lemma ExtractedByPlace(contentType: string, body: seq<byte>)
    ensures !("application/connect+" <= contentType) ==> ExtractBody(contentType, body) == Some(body)
    ensures "application/connect+" <= contentType && |body| < 5 ==> ExtractBody(contentType, body) == None
    ensures "application/connect+" <= contentType && |body| >= 5 ==>
              var n := Places(body[1], body[2], body[3], body[4]);
              ExtractBody(contentType, body) == if |body| < 5 + n then None else Some(body[5..5 + n])
  {
    if |body| >= 5 {
      FourPlaces(body[1..5]);
    }
  }

  /** So the data comes back exactly when its length fits in 32 bits. */
  lemma RoundTripExactlyWhen(contentType: string, flags: byte, data: seq<byte>, tail: seq<byte>)
    requires IsStream(contentType)
    ensures ExtractBody(contentType, Envelope(flags, data) + tail) == Some(data) <==> |data| < WRAP
  {
    ExtractEnvelope(contentType, flags, data, tail);
    WholeOrShorter(data, Cast32(|data|));
  }

  lemma WholeOrShorter(data: seq<byte>, n: nat)
    requires n <= |data|
    ensures data[..n] == data <==> n == |data|
  {
    assert |data[..n]| == n;
  }

  /** Nothing else is accepted: the bodies that yield `data` are those that start with an envelope of it. */
  lemma AcceptedExactlyWhen(contentType: string, body: seq<byte>, data: seq<byte>)
    requires IsStream(contentType)
    ensures ExtractBody(contentType, body) == Some(data)
       <==> |data| < WRAP && body != [] && Envelope(body[0], data) <= body
  {
    if ExtractBody(contentType, body) == Some(data) {
      HeaderOf(body);
      EnvelopeOfShort(body[0], data);
      PrefixGrows([body[0]] + BigEndian(|data|, 4), body, |data|);
    }
    if |data| < WRAP && body != [] && Envelope(body[0], data) <= body {
      var e := Envelope(body[0], data);
      assert body == e + body[|e|..];
      RoundTripExactlyWhen(contentType, body[0], data, body[|e|..]);
    }
  }

  lemma EnvelopeOfShort(flags: byte, data: seq<byte>)
    requires |data| < WRAP
    ensures Envelope(flags, data) == [flags] + BigEndian(|data|, 4) + data
  {
    var n := Cast32(|data|);
    assert n == |data|;
  }

  lemma PrefixGrows(header: seq<byte>, body: seq<byte>, n: nat)
    requires |header| + n <= |body| && header + body[|header|..] == body
    ensures header + body[|header|..|header| + n] <= body
  {
    assert body[..|header|] == header;
    assert header + body[|header|..|header| + n] == body[..|header| + n];
  }

  /** A frame cut short anywhere is refused. */
  lemma CutShort(contentType: string, flags: byte, data: seq<byte>, k: nat)
    requires IsStream(contentType) && |data| < WRAP && k < |Envelope(flags, data)|
    ensures ExtractBody(contentType, Envelope(flags, data)[..k]) == None
  {
    if k >= 5 {
      assert Envelope(flags, data)[..k] == [flags] + BigEndian(|data|, 4) + data[..k - 5];
      LengthOf(flags, |data|, data[..k - 5]);
    }
  }
}
