/** The request-size limit on a chunked body (`middleware.py`, `RequestSizeLimitMiddleware`). */
module BodyLimit {

  newtype byte = x: int | 0 <= x < 256
  type Bytes = seq<byte>

  /** What `receive` delivers: a body chunk, or anything else, such as a disconnect. */
  datatype Message = Chunk(body: Bytes, more: bool) | Disconnect

  /** The message stream of one connection; after its end every further receive reports the disconnect. */
  function MessageAt(stream: seq<Message>, i: nat): Message {
    if i < |stream| then stream[i] else Disconnect
  }

  /** The server's side of `receive`. */
  class Receiver {
    const stream: seq<Message>
    var pos: nat

    constructor (stream: seq<Message>)
      ensures this.stream == stream && pos == 0
    {
      this.stream := stream;
      pos := 0;
    }

    method Receive() returns (m: Message)
      modifies this
      ensures m == MessageAt(stream, old(pos)) && pos == old(pos) + 1
    {
      m := if pos < |stream| then stream[pos] else Disconnect;
      pos := pos + 1;
    }
  }

  // ----- the body a stream carries -----

  /** The chunks up to the first that announces no more, or to the first other message. */
  function Leading(stream: seq<Message>): seq<Bytes> {
    if stream == [] || stream[0].Disconnect? then []
    else [stream[0].body] + if stream[0].more then Leading(stream[1..]) else []
  }

  function Concat(chunks: seq<Bytes>): Bytes {
    if chunks == [] then [] else chunks[0] + Concat(chunks[1..])
  }

  function Body(stream: seq<Message>): Bytes {
    Concat(Leading(stream))
  }

  /** At least one chunk arrives and the chunks add up to more than the limit; for a limit that is not negative
      the second condition includes the first. */
  predicate Oversized(stream: seq<Message>, maxBytes: int) {
    Leading(stream) != [] && |Body(stream)| > maxBytes
  }

  /** What becomes of a request. */
  datatype Fate = Untouched | TooLarge | Forwarded(app: Replay)

  /** The substitute `receive` handed to the application. */
  class Replay {
    const buffered: Bytes
    const receiver: Receiver
    var replayed: bool

    constructor (buffered: Bytes, receiver: Receiver)
      ensures this.buffered == buffered && this.receiver == receiver && !replayed
    {
      this.buffered := buffered;
      this.receiver := receiver;
      replayed := false;
    }

    /** `replay_receive`: first the whole body as one final message, from then on the server's messages. */
    method ReplayReceive() returns (m: Message)
      modifies this, receiver
      ensures replayed
      ensures !old(replayed) ==> m == Chunk(buffered, false) && receiver.pos == old(receiver.pos)
      ensures old(replayed) ==>
                m == MessageAt(receiver.stream, old(receiver.pos)) && receiver.pos == old(receiver.pos) + 1
    {
      if !replayed {
        replayed := true;
        return Chunk(buffered, false);
      }
      m := receiver.Receive();
    }
  }

  predicate Limited(scopeType: string, verb: string) {
    scopeType == "http" && verb in ["POST", "PUT", "PATCH"]
  }

  /** `__call__`: rejects on the body that actually arrives, or hands the application a replay of it. */
  method Call(scopeType: string, verb: string, receiver: Receiver, maxBytes: int) returns (fate: Fate)
    requires receiver.pos == 0
    modifies receiver
    ensures !(scopeType == "http" && (verb == "POST" || verb == "PUT" || verb == "PATCH")) ==>
              fate == Untouched && receiver.pos == 0
    ensures scopeType == "http" && (verb == "POST" || verb == "PUT" || verb == "PATCH") ==>
              if Oversized(receiver.stream, maxBytes) then fate == TooLarge
              else
                && fate.Forwarded? && fresh(fate.app)
                && fate.app.buffered == Body(receiver.stream) && !fate.app.replayed && fate.app.receiver == receiver
                && receiver.pos == MessagesRead(receiver.stream)
  {
    if !Limited(scopeType, verb) {
      return Untouched;
    }
    hide Leading, Concat, Body, MessagesRead;
    var stream := receiver.stream;
    var buffered: Bytes := [];
    assert stream[0..] == stream;
    while true
      invariant receiver.pos <= |stream|
      invariant Body(stream) == buffered + Body(stream[receiver.pos..])
      invariant if receiver.pos == 0 then buffered == [] else Leading(stream) != [] && |buffered| <= maxBytes
      invariant MessagesRead(stream) == receiver.pos + MessagesRead(stream[receiver.pos..])
      decreases |stream| - receiver.pos
    {
      ghost var rest := stream[receiver.pos..];
      assert rest != [] ==> rest[0] == stream[receiver.pos] && rest[1..] == stream[receiver.pos + 1..];
      BodyStep(rest);
      var message := receiver.Receive();
      if message.Disconnect? {
        assert buffered + [] == buffered;
        break;
      }
      ghost var tail := if message.more then Body(rest[1..]) else [];
      assert buffered + (message.body + tail) == (buffered + message.body) + tail;
      buffered := buffered + message.body;
      if |buffered| > maxBytes {
        return TooLarge;
      }
      if !message.more {
        assert buffered + [] == buffered;
        break;
      }
    }
    var app := new Replay(buffered, receiver);
    return Forwarded(app);
  }

  /** The first message of a stream: a chunk, or the end of the body. */
  lemma BodyStep(stream: seq<Message>)
    ensures
      if stream != [] && stream[0].Chunk? then
        && Leading(stream) != []
        && Body(stream) == stream[0].body + (if stream[0].more then Body(stream[1..]) else [])
        && MessagesRead(stream) == 1 + if stream[0].more then MessagesRead(stream[1..]) else 0
      else Leading(stream) == [] && Body(stream) == [] && MessagesRead(stream) == 1
  {
    if stream != [] && stream[0].Chunk? {
      var tail := if stream[0].more then Leading(stream[1..]) else [];
      assert ([stream[0].body] + tail)[1..] == tail;
      assert Concat([]) == [];
    }
  }

  /** How many messages the loop consumes: the leading chunks, and the message that cut them off if one did. */
  function MessagesRead(stream: seq<Message>): nat {
    if stream == [] || stream[0].Disconnect? || !stream[0].more then 1
    else 1 + MessagesRead(stream[1..])
  }

  // ----- independence of the chunking -----

  /** A body sent in these chunks, all but the last announcing more. */
  function Sent(chunks: seq<Bytes>): seq<Message> {
    seq(|chunks|, i requires 0 <= i < |chunks| => Chunk(chunks[i], i < |chunks| - 1))
  }

  lemma {:induction false} SentIsReadWhole(chunks: seq<Bytes>, after: seq<Message>)
    requires chunks != []
    ensures Leading(Sent(chunks) + after) == chunks
    ensures MessagesRead(Sent(chunks) + after) == |chunks|
  {
    var stream := Sent(chunks) + after;
    if |chunks| > 1 {
      SentIsReadWhole(chunks[1..], after);
      assert stream[1..] == Sent(chunks[1..]) + after;
      assert chunks == [chunks[0]] + chunks[1..];
    } else {
      assert chunks == [chunks[0]];
    }
  }

  /** Two ways to cut the same body, whatever follows either, are read as the same body and rejected on its
      length alone; and the messages the application receives after its replay are those that followed the body. */
  lemma ChunkingIsImmaterial(chunks: seq<Bytes>, after: seq<Message>, others: seq<Bytes>, afterOthers: seq<Message>)
    requires chunks != [] && others != [] && Concat(chunks) == Concat(others)
    ensures Body(Sent(chunks) + after) == Body(Sent(others) + afterOthers) == Concat(chunks)
    ensures forall limit :: Oversized(Sent(chunks) + after, limit) <==> |Concat(chunks)| > limit
    ensures forall i: nat ::
              MessageAt(Sent(chunks) + after, MessagesRead(Sent(chunks) + after) + i) == MessageAt(after, i)
  {
    SentIsReadWhole(chunks, after);
    SentIsReadWhole(others, afterOthers);
  }

  lemma {:induction false} ConcatSplit(chunks: seq<Bytes>, k: nat)
    requires k <= |chunks|
    ensures Concat(chunks) == Concat(chunks[..k]) + Concat(chunks[k..])
  {
    if k == 0 {
      assert chunks[0..] == chunks;
    } else {
      ConcatSplit(chunks[1..], k - 1);
      assert chunks[..k][1..] == chunks[1..][..k - 1];
      assert chunks[1..][k - 1..] == chunks[k..];
    }
  }

  lemma {:induction false} CutIsReadAsPrefix(chunks: seq<Bytes>, k: nat, after: seq<Message>)
    requires k < |chunks|
    ensures Leading(Sent(chunks)[..k] + [Disconnect] + after) == chunks[..k]
    ensures MessagesRead(Sent(chunks)[..k] + [Disconnect] + after) == k + 1
  {
    hide Leading, MessagesRead;
    var stream := Sent(chunks)[..k] + [Disconnect] + after;
    LeadingStep(stream);
    if k > 0 {
      CutIsReadAsPrefix(chunks[1..], k - 1, after);
      SentRest(chunks, k);
      assert stream[1..] == Sent(chunks[1..])[..k - 1] + [Disconnect] + after;
      assert chunks[..k] == [chunks[0]] + chunks[1..][..k - 1];
    }
  }

  lemma LeadingStep(stream: seq<Message>)
    ensures
      if stream != [] && stream[0].Chunk? then
        && Leading(stream) == [stream[0].body] + (if stream[0].more then Leading(stream[1..]) else [])
        && MessagesRead(stream) == 1 + if stream[0].more then MessagesRead(stream[1..]) else 0
      else Leading(stream) == [] && MessagesRead(stream) == 1
  {
  }

  lemma SentRest(chunks: seq<Bytes>, k: nat)
    requires 0 < k < |chunks|
    ensures Sent(chunks)[..k][1..] == Sent(chunks[1..])[..k - 1]
    ensures Sent(chunks)[..k][0] == Chunk(chunks[0], true)
  {
  }

  /** When the client disconnects before the last chunk, the part that arrived is forwarded as if it were the
      whole: the application sees the client's body exactly when all the missing chunks were empty. */
  lemma CutBodyLooksCompleteIff(chunks: seq<Bytes>, k: nat, after: seq<Message>)
    requires k < |chunks|
    ensures Body(Sent(chunks)[..k] + [Disconnect] + after) == Concat(chunks[..k])
    ensures Body(Sent(chunks)[..k] + [Disconnect] + after) == Concat(chunks) <==> Concat(chunks[k..]) == []
  {
    CutIsReadAsPrefix(chunks, k, after);
    ConcatSplit(chunks, k);
    var whole, head, tail := Concat(chunks), Concat(chunks[..k]), Concat(chunks[k..]);
    assert |whole| == |head| + |tail|;
    assert tail == [] ==> head + tail == head;
  }
}
