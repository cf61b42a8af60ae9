/** The bounded buffer as the class that drops bytes one by one. */
module StreamBuffer {
  import opened Prelude
  import opened OutputTracks

  class StreamBuffer {
    const cap: nat
    var buf: seq<byte>
    var truncatedTotal: u64
    var closed: bool
    ghost var stream: seq<byte>
    ghost var pos: nat

    ghost function Now(): Track
      reads this
    {
      Track(Buf(buf, truncatedTotal, closed), stream, pos)
    }

    ghost predicate Valid()
      reads this
    {
      Accurate(cap, Now())
    }

    constructor (cap: nat)
      ensures Valid() && this.cap == cap && Now() == FRESH
    {
      this.cap := cap;
      buf, truncatedTotal, closed := [], 0, false;
      stream, pos := [], 0;
    }

    ghost function Bytes(): Buf
      reads this`buf, this`truncatedTotal, this`closed
    {
      Buf(buf, truncatedTotal, closed)
    }

    /** Append one byte, dropping the oldest when the buffer is at capacity. */
    method AppendByte(x: byte)
      requires 1 <= cap ==> |buf| <= cap
      modifies this`buf, this`truncatedTotal
      ensures 1 <= cap ==> |buf| <= cap
      ensures Bytes() == PushBuf(cap, old(Bytes()), [x])
    {
      PushByte(cap, Bytes(), x);
      if |buf| == cap {
        buf := if buf == [] then [] else buf[1..];
        truncatedTotal := Saturate(truncatedTotal + 1);
      }
      buf := buf + [x];
    }

    /** Append byte by byte. */
    method AppendBytes(bytes: seq<byte>)
      requires 1 <= cap ==> |buf| <= cap
      modifies this`buf, this`truncatedTotal
      ensures Bytes() == PushBuf(cap, old(Bytes()), bytes)
    {
      ghost var before := Bytes();
      PushNothing(cap, before);
      for i := 0 to |bytes|
        invariant 1 <= cap ==> |buf| <= cap
        invariant Bytes() == PushBuf(cap, before, bytes[..i])
      {
        assert bytes[..i + 1] == bytes[..i] + [bytes[i]];
        PushCompose(cap, before, bytes[..i], [bytes[i]]);
        AppendByte(bytes[i]);
      }
      assert bytes[..|bytes|] == bytes;
    }

    method Push(bytes: seq<byte>)
      requires Valid()
      modifies this
      ensures Valid() && Now() == OutputTracks.Push(cap, old(Now()), bytes)
    {
      PushAccurate(cap, Now(), bytes);
      AppendBytes(bytes);
      stream := stream + bytes;
    }

    method Close()
      requires Valid()
      modifies this`closed
      ensures Valid() && Now() == OutputTracks.Close(old(Now()))
    {
      closed := true;
    }

    /** Take bytes one by one from the front. */
    method TakeFront(take: nat) returns (out: seq<byte>)
      requires take <= |buf|
      modifies this`buf
      ensures out == old(buf)[..take] && buf == old(buf)[take..]
    {
      out := [];
      for i := 0 to take
        invariant out == old(buf)[..i] && buf == old(buf)[i..]
      {
        out := out + [buf[0]];
        buf := buf[1..];
      }
    }

    /** Take up to `max` bytes from the front; report and forget the truncation counter. */
    method Drain(max: Option<nat>) returns (out: seq<byte>, truncated: bool, eof: bool)
      requires Valid()
      modifies this
      ensures Valid()
      ensures (Now(), Reply(out, truncated, eof)) == OutputTracks.Drain(old(Now()), max)
    {
      var _ := DrainAccurate(cap, Now(), max);
      var take := match max
        case Some(m) => Min(m, |buf|)
        case None => |buf|;
      out := TakeFront(take);
      truncated := truncatedTotal > 0;
      if truncated {
        truncatedTotal := 0;
      }
      eof := closed && buf == [];
      pos := |stream| - |buf|;
    }
  }
}
