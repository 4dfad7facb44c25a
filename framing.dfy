/**
  The wire format shared by the benchmark client and the echo server: every
  message travels as a frame made of a 4-byte unsigned big-endian length
  header followed by exactly that many payload bytes.

  `Parse` is the specification of the stream decoder: it splits a byte
  stream into the payloads of all complete frames at its front and the
  bytes that do not yet form a complete frame.
*/
module Framing {

  /** One octet of the byte stream. */
  type byte = b: int | 0 <= b < 256

  /** Size of the length header of every frame. */
  const HeaderSize: nat := 4

  /** The header is an unsigned 32-bit integer: payloads are shorter than this. */
  const MaxLength: nat := 0x1_0000_0000

  /** The four header bytes holding `n` most significant byte first (writeUInt32BE). */
  function WriteUInt32BE(n: nat): (h: seq<byte>)
    requires n < MaxLength
    ensures |h| == HeaderSize
  {
    [n / 0x100_0000, (n / 0x1_0000) % 0x100, (n / 0x100) % 0x100, n % 0x100]
  }

  /** The unsigned big-endian integer held by the first four bytes of `s` (readUInt32BE at offset 0). */
  function ReadUInt32BE(s: seq<byte>): (n: nat)
    requires |s| >= HeaderSize
    ensures n < MaxLength
  {
    s[0] as int * 0x100_0000 + s[1] as int * 0x1_0000 + s[2] as int * 0x100 + s[3] as int
  }

  /** Reading back a written header yields the number that was written. */
  lemma HeaderRoundTrip(n: nat)
    requires n < MaxLength
    ensures ReadUInt32BE(WriteUInt32BE(n)) == n
  {
    var h := WriteUInt32BE(n);
    var q1 := n / 0x100;
    var q2 := n / 0x1_0000;
    assert n == q1 * 0x100 + h[3];
    assert q2 == q1 / 0x100;
    assert q1 == q2 * 0x100 + h[2];
    assert h[0] == q2 / 0x100;
    assert q2 == h[0] as int * 0x100 + h[1];
  }

  /** Writing back a read header reproduces the four bytes that were read. */
  lemma HeaderBytesRoundTrip(s: seq<byte>)
    requires |s| >= HeaderSize
    ensures WriteUInt32BE(ReadUInt32BE(s)) == s[..HeaderSize]
  {
    var n := ReadUInt32BE(s);
    var q2: int := s[0] as int * 0x100 + s[1];
    var q1: int := q2 * 0x100 + s[2];
    assert n == q1 * 0x100 + s[3];
    assert n / 0x100 == q1 && n % 0x100 == s[3];
    assert q1 / 0x100 == q2 && q1 % 0x100 == s[2];
    assert q2 / 0x100 == s[0] && q2 % 0x100 == s[1];
    assert n / 0x1_0000 == q2 by { DivDiv(n, q1, q2); }
    assert n / 0x100_0000 == s[0];
  }

  /** Dividing by 256 twice is dividing by 65536. */
  lemma DivDiv(n: nat, q1: nat, q2: nat)
    requires q1 == n / 0x100 && q2 == q1 / 0x100
    ensures n / 0x1_0000 == q2
  {
  }

  /** A frame carrying `m` (makeData / the echo callback): header, then payload. */
  function Encode(m: seq<byte>): (f: seq<byte>)
    requires |m| < MaxLength
    ensures |f| == HeaderSize + |m|
    ensures ReadUInt32BE(f) == |m| && f[HeaderSize..] == m
  {
    HeaderRoundTrip(|m|);
    WriteUInt32BE(|m|) + m
  }

  /** Every payload fits a 32-bit length header. */
  ghost predicate Encodable(ms: seq<seq<byte>>)
  {
    forall i | 0 <= i < |ms| :: |ms[i]| < MaxLength
  }

  /** The frames of `ms`, one after the other, in order. */
  function Frames(ms: seq<seq<byte>>): (s: seq<byte>)
    requires Encodable(ms)
  {
    if ms == [] then [] else Encode(ms[0]) + Frames(ms[1..])
  }

  /** Sequence concatenation regroups freely. */
  lemma Assoc<T>(a: seq<T>, b: seq<T>, c: seq<T>)
    ensures (a + b) + c == a + (b + c)
  {
  }

  /** Framing one more message appends its frame. */
  lemma FramesSnoc(ms: seq<seq<byte>>, i: nat)
    requires Encodable(ms) && i < |ms|
    ensures Encodable(ms[..i]) && Encodable(ms[..i + 1])
    ensures Frames(ms[..i + 1]) == Frames(ms[..i]) + Encode(ms[i])
  {
    assert ms[..i + 1] == ms[..i] + [ms[i]];
    FramesAppend(ms[..i], [ms[i]]);
    FramesSingle(ms[i]);
  }

  /** Splitting off the head of the left operand of a concatenation. */
  lemma ConsAppend<T>(xs: seq<T>, ys: seq<T>)
    requires xs != []
    ensures xs + ys == [xs[0]] + (xs[1..] + ys)
  {
  }

  /** The frames of one message are its frame. */
  lemma FramesSingle(m: seq<byte>)
    requires |m| < MaxLength
    ensures Encodable([m]) && Frames([m]) == Encode(m)
  {
    assert [m][1..] == [];
  }

  /** Framing a message in front of others puts its frame in front of theirs. */
  lemma FramesCons(m: seq<byte>, ms: seq<seq<byte>>)
    requires |m| < MaxLength && Encodable(ms)
    ensures Encodable([m] + ms) && Frames([m] + ms) == Encode(m) + Frames(ms)
  {
    assert ([m] + ms)[1..] == ms;
  }

  /** Framing a list of messages is framing its parts one after the other. */
  lemma {:induction false} FramesAppend(a: seq<seq<byte>>, b: seq<seq<byte>>)
    requires Encodable(a) && Encodable(b)
    ensures Encodable(a + b) && Frames(a + b) == Frames(a) + Frames(b)
    decreases |a|
  {
    if a == [] {
      assert a + b == b;
    } else {
      FramesAppend(a[1..], b);
      assert (a + b)[1..] == a[1..] + b;
      Assoc(Encode(a[0]), Frames(a[1..]), Frames(b));
    }
  }

  /** True when `s` starts with a whole frame: a full header and the whole payload it announces. */
  predicate HasFrame(s: seq<byte>)
  {
    |s| >= HeaderSize && |s| >= HeaderSize + ReadUInt32BE(s)
  }

  /** The payloads of the complete frames at the front of a stream, and what follows them. */
  datatype Split = Split(msgs: seq<seq<byte>>, rest: seq<byte>)

  /**
    The decoder's specification: peel complete frames off the front of `s`
    until what remains holds no complete frame. Every payload fits a 32-bit
    header.
  */
  function Parse(s: seq<byte>): (r: Split)
    ensures Encodable(r.msgs)
    ensures !HasFrame(r.rest)
    decreases |s|
  {
    if !HasFrame(s) then Split([], s)
    else
      var n := ReadUInt32BE(s);
      var tail := Parse(s[HeaderSize + n..]);
      Split([s[HeaderSize..HeaderSize + n]] + tail.msgs, tail.rest)
  }

  /** One step of the decoder: a whole frame at the front is taken off and decoding carries on after it. */
  lemma ParseStep(s: seq<byte>)
    requires HasFrame(s)
    ensures var n := ReadUInt32BE(s);
            Parse(s) == Split([s[HeaderSize..HeaderSize + n]] + Parse(s[HeaderSize + n..]).msgs, Parse(s[HeaderSize + n..]).rest)
  {
  }

  /** The decoder stops as soon as the front of the buffer is not a whole frame. */
  lemma ParseDone(s: seq<byte>)
    requires !HasFrame(s)
    ensures Parse(s) == Split([], s)
  {
  }

  /** Nothing is lost or invented: the payloads, framed again, followed by the remainder give back `s`. */
  lemma {:induction false} ParseReassembles(s: seq<byte>)
    ensures Frames(Parse(s).msgs) + Parse(s).rest == s
    decreases |s|
  {
    if HasFrame(s) {
      var n := ReadUInt32BE(s);
      var m := s[HeaderSize..HeaderSize + n];
      var after := s[HeaderSize + n..];
      var tail := Parse(after);
      assert Parse(s) == Split([m] + tail.msgs, tail.rest);
      ParseReassembles(after);
      FrameAtFront(s);
      FramesCons(m, tail.msgs);
      Assoc(Encode(m), Frames(tail.msgs), tail.rest);
    }
  }

  /** A stream that starts with a whole frame is that frame followed by the bytes after it. */
  lemma FrameAtFront(s: seq<byte>)
    requires HasFrame(s)
    ensures Encode(s[HeaderSize..HeaderSize + ReadUInt32BE(s)]) + s[HeaderSize + ReadUInt32BE(s)..] == s
  {
    var n := ReadUInt32BE(s);
    var m := s[HeaderSize..HeaderSize + n];
    HeaderBytesRoundTrip(s);
    calc {
      Encode(m) + s[HeaderSize + n..];
      (WriteUInt32BE(n) + m) + s[HeaderSize + n..];
      (s[..HeaderSize] + m) + s[HeaderSize + n..];
      { assert s[..HeaderSize] + m == s[..HeaderSize + n]; }
      s[..HeaderSize + n] + s[HeaderSize + n..];
      { assert s[..HeaderSize + n] + s[HeaderSize + n..] == s; }
      s;
    }
  }

  /** The header of a stream depends only on its first four bytes. */
  lemma ReadPrefix(f: seq<byte>, t: seq<byte>)
    requires |f| >= HeaderSize
    ensures ReadUInt32BE(f + t) == ReadUInt32BE(f)
  {
    assert (f + t)[..HeaderSize] == f[..HeaderSize];
  }

  /** A frame at the front of a stream is decoded first, then the decoder carries on after it. */
  lemma ParseFrameThen(m: seq<byte>, after: seq<byte>)
    requires |m| < MaxLength
    ensures Parse(Encode(m) + after) == Split([m] + Parse(after).msgs, Parse(after).rest)
  {
    var s := Encode(m) + after;
    ReadPrefix(Encode(m), after);
    assert ReadUInt32BE(s) == |m|;
    assert HasFrame(s);
    assert s[HeaderSize..HeaderSize + |m|] == m;
    assert s[HeaderSize + |m|..] == after;
  }

  /**
    Decoding a run of frames followed by any bytes `t` yields the framed
    payloads, in order, and then whatever `t` alone decodes to.
  */
  lemma {:induction false} ParseFrames(ms: seq<seq<byte>>, t: seq<byte>)
    requires Encodable(ms)
    ensures Parse(Frames(ms) + t) == Split(ms + Parse(t).msgs, Parse(t).rest)
  {
    if ms == [] {
      assert Frames(ms) + t == t;
      assert ms + Parse(t).msgs == Parse(t).msgs;
    } else {
      var after := Frames(ms[1..]) + t;
      assert Frames(ms) == Encode(ms[0]) + Frames(ms[1..]);
      Assoc(Encode(ms[0]), Frames(ms[1..]), t);
      ParseFrameThen(ms[0], after);
      ParseFrames(ms[1..], t);
      ConsAppend(ms, Parse(t).msgs);
    }
  }

  /** Frames and Parse are inverse: decoding the frames of `ms` gives back `ms` and nothing left over. */
  lemma DecodeFrames(ms: seq<seq<byte>>)
    requires Encodable(ms)
    ensures Parse(Frames(ms)) == Split(ms, [])
  {
    ParseFrames(ms, []);
    assert Frames(ms) + [] == Frames(ms);
    assert ms + [] == ms;
  }

  /** Round trip: one frame decodes to exactly its payload, the empty payload (four zero bytes) included. */
  lemma RoundTrip(m: seq<byte>)
    requires |m| < MaxLength
    ensures Parse(Encode(m)) == Split([m], [])
  {
    FramesSingle(m);
    DecodeFrames([m]);
  }

  /** The empty message travels as a header of four zero bytes and nothing else. */
  lemma EmptyFrame()
    ensures Encode([]) == [0, 0, 0, 0]
    ensures Parse([0, 0, 0, 0]) == Split([[]], [])
  {
    RoundTrip([]);
  }

  /** Coalescing: two frames arriving together decode to both payloads, in order. */
  lemma Coalesced(m1: seq<byte>, m2: seq<byte>)
    requires |m1| < MaxLength && |m2| < MaxLength
    ensures Parse(Encode(m1) + Encode(m2)) == Split([m1, m2], [])
  {
    assert Frames([m1, m2]) == Encode(m1) + Encode(m2) by {
      assert [m1, m2][1..] == [m2];
      FramesSingle(m2);
    }
    DecodeFrames([m1, m2]);
  }

  /**
    Decoding is incremental: decoding `s + t` equals decoding `s`, then
    decoding what `s` left over with `t` appended. This is what one pass of
    the decoder does with its buffer and a new chunk.
  */
  lemma ParseAppend(s: seq<byte>, t: seq<byte>)
    ensures Parse(s + t) == Split(Parse(s).msgs + Parse(Parse(s).rest + t).msgs, Parse(Parse(s).rest + t).rest)
  {
    var p := Parse(s);
    ParseReassembles(s);
    Assoc(Frames(p.msgs), p.rest, t);
    ParseFrames(p.msgs, p.rest + t);
  }
}
