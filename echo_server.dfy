/**
  The echo server: each accepted connection gets its own decoder, and every
  message that decoder emits is framed again and written back on the same
  connection. A write is modelled as appending the frame to the bytes the
  connection has sent so far. Messages are byte sequences, so turning the
  payload into text and back is the identity here.
*/
module EchoServer {
  import opened Framing
  import opened StreamDecoder

  class Connection {
    /** This connection's own decoder; no other connection shares it. */
    const decoder: Decoder
    /** Every byte written back to the peer so far, in order. */
    var written: seq<byte>

    /** A new connection: a fresh decoder with an empty buffer, nothing written yet. */
    constructor ()
      ensures fresh(decoder) && decoder.buff == [] && written == []
    {
      decoder := new Decoder();
      written := [];
    }

    /** The decoder's callback: frame one decoded message again and write it back. */
    method Reply(message: seq<byte>)
      requires |message| < MaxLength
      modifies this
      ensures written == old(written) + Encode(message)
    {
      var payload := message;
      var frame := WriteUInt32BE(|payload|) + payload;
      written := written + frame;
    }

    /**
      One chunk from the peer: the decoder emits its messages and each one,
      in decode order, is written back as exactly one frame.
    */
    method OnData(chunk: seq<byte>)
      modifies this, decoder
      ensures decoder.buff == Parse(old(decoder.buff) + chunk).rest
      ensures written == old(written) + Frames(Parse(old(decoder.buff) + chunk).msgs)
    {
      var msgs := decoder.Feed(chunk);
      var i := 0;
      while i < |msgs|
        invariant 0 <= i <= |msgs|
        invariant decoder.buff == Parse(old(decoder.buff) + chunk).rest
        invariant written == old(written) + Frames(msgs[..i])
      {
        Reply(msgs[i]);
        FramesSnoc(msgs, i);
        i := i + 1;
      }
      assert msgs[..i] == msgs;
    }
  }

  /**
    One connection served from start to end: whatever the split of the
    incoming stream into chunks, the server writes back one frame per
    complete incoming frame, in order, and those bytes are exactly the
    incoming bytes minus the incomplete tail it is still waiting on.
  */
  method Serve(chunks: seq<seq<byte>>) returns (written: seq<byte>)
    ensures written == Frames(Parse(Concat(chunks)).msgs)
    ensures written + Parse(Concat(chunks)).rest == Concat(chunks)
  {
    var connection := new Connection();
    ghost var decoded: seq<seq<byte>> := [];
    var i := 0;
    while i < |chunks|
      invariant 0 <= i <= |chunks|
      invariant Parse(Concat(chunks[..i])) == Split(decoded, connection.decoder.buff)
      invariant Encodable(decoded) && connection.written == Frames(decoded)
    {
      ghost var held := connection.decoder.buff;
      connection.OnData(chunks[i]);
      ghost var p := Parse(held + chunks[i]);
      FeedStep(Concat(chunks[..i]), chunks[i], decoded, held, p.msgs, p.rest);
      FramesAppend(decoded, p.msgs);
      ConcatSnoc(chunks, i);
      decoded := decoded + p.msgs;
      i := i + 1;
    }
    assert chunks[..i] == chunks;
    written := connection.written;
    ParseReassembles(Concat(chunks));
  }

  /** The server answers a single frame with that same frame, byte for byte, the empty message included. */
  lemma EchoOneFrame(m: seq<byte>)
    requires |m| < MaxLength
    ensures Frames(Parse(Encode(m)).msgs) == Encode(m)
    ensures Parse(Encode(m)).rest == []
  {
    RoundTrip(m);
    FramesSingle(m);
  }

  /** The client decodes the server's replies to exactly the messages the server decoded, in order. */
  lemma RepliesDecode(s: seq<byte>)
    ensures Parse(Frames(Parse(s).msgs)) == Split(Parse(s).msgs, [])
  {
    DecodeFrames(Parse(s).msgs);
  }
}
