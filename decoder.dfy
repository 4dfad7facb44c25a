/**
  The per-connection stream decoder (`messageBuild`): an accumulation buffer
  that each arriving chunk is appended to, and a loop that peels every
  complete frame off its front and hands the payload on, in arrival order.
  The client and the server use the same decoder, one per connection.
*/
module StreamDecoder {
  import opened Framing

  /** The bytes of `chunks`, one chunk after the other. */
  function Concat(chunks: seq<seq<byte>>): (s: seq<byte>)
  {
    if chunks == [] then [] else Concat(chunks[..|chunks| - 1]) + chunks[|chunks| - 1]
  }

  lemma ConcatSnoc(chunks: seq<seq<byte>>, i: nat)
    requires i < |chunks|
    ensures Concat(chunks[..i + 1]) == Concat(chunks[..i]) + chunks[i]
  {
    assert chunks[..i + 1][..i] == chunks[..i];
  }

  /** What one call of Feed contributes to decoding the whole stream received so far. */
  lemma FeedStep(received: seq<byte>, chunk: seq<byte>, msgs: seq<seq<byte>>, held: seq<byte>,
                 emitted: seq<seq<byte>>, kept: seq<byte>)
    requires Parse(received) == Split(msgs, held)
    requires Parse(held + chunk) == Split(emitted, kept)
    ensures Parse(received + chunk) == Split(msgs + emitted, kept)
  {
    ParseAppend(received, chunk);
  }

  class Decoder {
    /** Bytes received and not yet handed on as a message. */
    var buff: seq<byte>

    /** Between chunks the buffer never holds a complete frame. */
    ghost predicate Valid()
      reads this
    {
      !HasFrame(buff)
    }

    /** A fresh decoder starts with an empty buffer. */
    constructor ()
      ensures Valid() && buff == []
    {
      buff := [];
    }

    /**
      Handle one chunk: append it, then emit the payload of every complete
      frame at the front of the buffer and drop its bytes. A header whose
      payload has not fully arrived stays in the buffer, unread.
    */
    method Feed(chunk: seq<byte>) returns (msgs: seq<seq<byte>>)
      modifies this
      ensures msgs == Parse(old(buff) + chunk).msgs
      ensures buff == Parse(old(buff) + chunk).rest
      ensures Valid()
    {
      buff := buff + chunk;
      msgs := [];
      ghost var whole := Parse(buff);
      while |buff| >= HeaderSize
        invariant whole.msgs == msgs + Parse(buff).msgs && whole.rest == Parse(buff).rest
        decreases |buff|
      {
        var messageLength := ReadUInt32BE(buff);
        if |buff| < HeaderSize + messageLength {
          break;
        }
        var message := buff[HeaderSize..HeaderSize + messageLength];
        ghost var after := buff[HeaderSize + messageLength..];
        ParseStep(buff);
        Assoc(msgs, [message], Parse(after).msgs);
        msgs := msgs + [message];
        buff := buff[HeaderSize + messageLength..];
      }
      ParseDone(buff);
      assert msgs + [] == msgs;
    }
  }

  /**
    Fragmentation invariance: feeding any split of a byte stream, chunk by
    chunk, to a fresh decoder emits exactly the messages of the whole stream
    and leaves exactly its undecoded remainder in the buffer, whatever the
    split points.
  */
  method DecodeChunks(chunks: seq<seq<byte>>) returns (msgs: seq<seq<byte>>, rest: seq<byte>)
    ensures Split(msgs, rest) == Parse(Concat(chunks))
    ensures !HasFrame(rest)
  {
    var decoder := new Decoder();
    msgs := [];
    var i := 0;
    while i < |chunks|
      invariant 0 <= i <= |chunks|
      invariant Parse(Concat(chunks[..i])) == Split(msgs, decoder.buff)
    {
      ghost var held := decoder.buff;
      var emitted := decoder.Feed(chunks[i]);
      FeedStep(Concat(chunks[..i]), chunks[i], msgs, held, emitted, decoder.buff);
      ConcatSnoc(chunks, i);
      msgs := msgs + emitted;
      i := i + 1;
    }
    assert chunks[..i] == chunks;
    rest := decoder.buff;
  }

  /** Round trip through the decoder object: a fresh decoder fed one whole frame emits its payload and keeps nothing. */
  method DecodeOneFrame(m: seq<byte>) returns (msgs: seq<seq<byte>>, rest: seq<byte>)
    requires |m| < MaxLength
    ensures msgs == [m] && rest == []
  {
    var decoder := new Decoder();
    msgs := decoder.Feed(Encode(m));
    RoundTrip(m);
    assert [] + Encode(m) == Encode(m);
    rest := decoder.buff;
  }
}
